/**
 Conditions as trees of atomic texts, parentheses and the two connectives: how they print, what
 stripping does to the printed text, and the pieces between connectives.
 */
module ConditionTrees {
  import opened AtomSyntax
  import opened Expressions
  import opened Sequences
  import opened Text

  datatype Op = OrOp | AndOp

  datatype Expr = Leaf(text: string) | Group(inner: Expr) | Join(op: Op, left: Expr, right: Expr)

  function Sep(op: Op): string {
    if op == OrOp then OR else AND
  }

  function Other(op: Op): Op {
    if op == OrOp then AndOp else OrOp
  }

  function Print(e: Expr): string {
    match e
    case Leaf(t) => t
    case Group(x) => "(" + Print(x) + ")"
    case Join(op, l, r) => Print(l) + Sep(op) + Print(r)
  }

  /** Parenthesis depth after the text, or -1 once it has gone below zero. */
  function Walk(s: string, depth: nat): int {
    if s == "" then depth
    else if s[0] == '(' then Walk(s[1..], depth + 1)
    else if s[0] == ')' then if depth == 0 then -1 else Walk(s[1..], depth - 1)
    else Walk(s[1..], depth)
  }

  predicate Balanced(s: string) {
    Walk(s, 0) == 0
  }

  /** Any atomic condition the recogniser accepts, without white space around it. */
  predicate LeafText(t: string) {
    MatchAtom(t).Some? && Trimmed(t)
  }

  predicate IsDisjunction(e: Expr) {
    e.Join? && e.op == OrOp
  }

  /** Printed without loss: a disjunction under a conjunction stands in parentheses. */
  predicate WellFormed(e: Expr) {
    match e
    case Leaf(t) => LeafText(t)
    case Group(x) => WellFormed(x)
    case Join(op, l, r) =>
      WellFormed(l) && WellFormed(r) && (op == AndOp ==> !IsDisjunction(l) && !IsDisjunction(r))
  }

  predicate Uses(e: Expr, op: Op) {
    match e
    case Leaf(_) => false
    case Group(x) => Uses(x, op)
    case Join(o, l, r) => o == op || Uses(l, op) || Uses(r, op)
  }

  // ------------------------------------------------------------- leaves

  lemma BlankEnd(r: string, n: nat)
    requires n < |r|
    ensures AllBlank(r[n..]) ==> Blank(r[|r| - 1])
  {
    assert r[n..][|r| - n - 1] == r[|r| - 1];
  }

  /** No proper beginning of a leaf is an atom. */
  lemma CutAtom(t: string, n: nat)
    requires LeafText(t) && n < |t|
    ensures MatchAtom(t[..n]).None?
  {
    BlankEnd(t, n);
    assert t[..n] + t[n..] == t;
    if MatchAtom(t[..n]).Some? {
      NothingFollows(t[..n], t[n..]);
    }
  }

  lemma {:induction false} SkipBlanksEnd(s: string)
    requires SkipBlanks(s) != ""
    ensures s[|s| - 1] == SkipBlanks(s)[|SkipBlanks(s)| - 1]
  {
    if Blank(s[0]) {
      SkipBlanksEnd(s[1..]);
    }
  }

  lemma EndReached(r: string, n: nat)
    requires 0 < n <= |r| && AllBlank(r[n..]) && !Blank(r[|r| - 1])
    ensures n == |r|
  {
    if n < |r| {
      BlankEnd(r, n);
    }
  }

  /** An operand ends in a quote, a list in a parenthesis. */
  predicate Closer(c: char) {
    Quote(c) || c == ')'
  }

  lemma ComparisonEnd(s: string)
    requires Comparison(s).Some? && s != "" && !Blank(s[|s| - 1])
    ensures Closer(s[|s| - 1])
  {
    var r := SkipBlanks(s);
    SkipBlanksEnd(s);
    var n := QuotedAt(r).value.1;
    EndReached(r, n);
    assert r[n - 1] == r[1..][n - 2];
  }

  lemma MembershipEnd(s: string)
    requires Membership(s).Some? && s != "" && !Blank(s[|s| - 1])
    ensures Closer(s[|s| - 1])
  {
    var r := SkipBlanks(s);
    SkipBlanksEnd(s);
    var n := CloseFree(r[1..]);
    EndReached(r, n + 2);
    assert r[n + 1] == r[1..][n];
  }

  lemma OperatorEnd(name: string, s: string)
    requires MatchOperator(name, s).Some? && s != "" && !Blank(s[|s| - 1])
    ensures Closer(s[|s| - 1])
  {
    var r := SkipBlanks(s);
    SkipBlanksEnd(s);
    assert |r| > 2 ==> r[|r| - 1] == r[2..][|r| - 3];
    if StartsWith(r, 'i', 'n') {
      MembershipEnd(r[2..]);
    } else {
      ComparisonEnd(r[2..]);
    }
  }

  lemma OperatorNotEmpty(name: string, s: string)
    requires MatchOperator(name, s).Some?
    ensures s != ""
  {
  }

  lemma SuffixEnd(t: string, n: nat)
    requires n <= |t| && MatchOperator(t[..n], t[n..]).Some?
    ensures n < |t| && (!Blank(t[|t| - 1]) ==> Closer(t[|t| - 1]))
  {
    OperatorNotEmpty(t[..n], t[n..]);
    assert t[n..][|t| - n - 1] == t[|t| - 1];
    if !Blank(t[|t| - 1]) {
      OperatorEnd(t[..n], t[n..]);
    }
  }

  lemma LeafStart(t: string)
    requires LeafText(t)
    ensures t != "" && IdentStart(t[0]) && !IsSpace(t[0]) && !IsSpace(t[|t| - 1]) && SkipBlanks(t) == t
    ensures IdentRun(t) > 0 && MatchOperator(t[..IdentRun(t)], t[IdentRun(t)..]).Some?
  {
    assert t != "" && !Blank(t[0]);
  }

  lemma LeafShape(t: string)
    requires LeafText(t)
    ensures |t| >= 2 && IdentStart(t[0]) && !IsSpace(t[0])
    ensures Closer(t[|t| - 1]) && !IsSpace(t[|t| - 1]) && SkipBlanks(t) == t
  {
    LeafStart(t);
    SuffixEnd(t, IdentRun(t));
  }

  // ------------------------------------------------------------- depth

  lemma {:induction false} WalkAppend(a: string, b: string, depth: nat)
    ensures Walk(a + b, depth) == if Walk(a, depth) < 0 then -1 else Walk(b, Walk(a, depth))
  {
    if a == "" {
      assert a + b == b;
    } else {
      assert (a + b)[1..] == a[1..] + b;
      if a[0] == '(' {
        WalkAppend(a[1..], b, depth + 1);
      } else if a[0] == ')' {
        if depth > 0 {
          WalkAppend(a[1..], b, depth - 1);
        }
      } else {
        WalkAppend(a[1..], b, depth);
      }
    }
  }

  lemma {:induction false} WalkDeeper(s: string, depth: nat, more: nat)
    requires Walk(s, depth) >= 0
    ensures Walk(s, depth + more) == Walk(s, depth) + more
  {
    if s != "" {
      if s[0] == '(' {
        WalkDeeper(s[1..], depth + 1, more);
      } else if s[0] == ')' {
        WalkDeeper(s[1..], depth - 1, more);
      } else {
        WalkDeeper(s[1..], depth, more);
      }
    }
  }

  lemma {:induction false} SpansFrom(s: string, i: nat, depth: nat)
    requires i < |s| && s[|s| - 1] == ')'
    ensures Spans(s, i, depth + 1) <==> Walk(s[i..|s| - 1], depth) == 0
    decreases |s| - i
  {
    if i < |s| - 1 {
      assert s[i..|s| - 1][1..] == s[i + 1..|s| - 1];
      if s[i] == '(' {
        SpansFrom(s, i + 1, depth + 1);
      } else if s[i] == ')' {
        if depth > 0 {
          SpansFrom(s, i + 1, depth - 1);
        }
      } else {
        SpansFrom(s, i + 1, depth);
      }
    }
  }

  /** The outer parentheses span a text exactly when the text between them is balanced. */
  lemma SpansExactly(p: string)
    ensures Spans("(" + p + ")", 0, 0) <==> Balanced(p)
  {
    var s := "(" + p + ")";
    assert s[1..|s| - 1] == p;
    SpansFrom(s, 1, 0);
  }

  lemma {:induction false} SpansLoosely(s: string, i: nat, depth: int)
    requires i <= |s| && Spans(s, i, depth)
    ensures LooselySpans(s, i, depth)
    decreases |s| - i
  {
    if i < |s| {
      SpansLoosely(s, i + 1, if s[i] == '(' then depth + 1 else if s[i] == ')' then depth - 1 else depth);
    }
  }

  /** A stretch that returns to depth zero before the end is not spanned, by either scan. */
  lemma {:induction false} ReturnsEarly(s: string, i: nat, p: string, depth: nat)
    requires i + |p| < |s| && s[i..i + |p|] == p && depth > 0 && Walk(p, depth) == 0
    ensures !LooselySpans(s, i, depth)
    decreases p
  {
    assert s[i] == p[0] && s[i + 1..i + 1 + |p[1..]|] == p[1..];
    if p[0] == '(' {
      ReturnsEarly(s, i + 1, p[1..], depth + 1);
    } else if p[0] == ')' {
      if depth > 1 {
        ReturnsEarly(s, i + 1, p[1..], depth - 1);
      }
    } else {
      ReturnsEarly(s, i + 1, p[1..], depth);
    }
  }

  lemma FirstPartCloses(p: string, rest: string)
    requires Balanced(p) && rest != ""
    ensures !Spans("(" + p + ")" + rest, 0, 0) && !LooselySpans("(" + p + ")" + rest, 0, 0)
  {
    var s := "(" + p + ")" + rest;
    assert s[1..1 + |p + ")"|] == p + ")";
    WalkDeeper(p, 0, 1);
    WalkAppend(p, ")", 1);
    assert ")"[1..] == "" && Walk(")", 1) == 0;
    ReturnsEarly(s, 1, p + ")", 1);
    assert !LooselySpans(s, 0, 0);
    if Spans(s, 0, 0) {
      SpansLoosely(s, 0, 0);
    }
  }

  // ------------------------------------------------------------- the printed text

  lemma {:induction false} PrintShape(e: Expr)
    requires WellFormed(e)
    ensures |Print(e)| >= 2 && Trimmed(Print(e))
  {
    match e {
      case Leaf(t) => LeafShape(t);
      case Group(x) => PrintShape(x);
      case Join(_, l, r) =>
        PrintShape(l);
        PrintShape(r);
    }
  }

  lemma TrimmedIsTrim(s: string)
    requires Trimmed(s)
    ensures TrimSpace(s) == s
  {
    TrimPadding("", s, "");
    assert "" + s + "" == s;
  }

  lemma {:induction false} Within(a: string, s: string, b: string, sep: string)
    ensures Contains(s, sep) ==> Contains(a + s + b, sep)
  {
    if Contains(s, sep) {
      var p :| 0 <= p <= |s| && OccursAt(s, sep, p);
      var t := a + s + b;
      assert t[|a| + p..|a| + p + |sep|] == s[p..p + |sep|];
      assert OccursAt(t, sep, |a| + p);
    }
  }

  lemma SliceWithin(s: string, a: nat, b: nat, sep: string)
    requires a <= b <= |s|
    ensures Contains(s[a..b], sep) ==> Contains(s, sep)
  {
    Within(s[..a], s[a..b], s[b..], sep);
    assert s[..a] + s[a..b] + s[b..] == s;
  }

  /** A first byte the separator lacks can go without losing an occurrence. */
  lemma DropFirst(s: string, sep: string)
    requires s != "" && sep != "" && s[0] != sep[0]
    ensures Contains(s[1..], sep) <==> Contains(s, sep)
  {
    SliceWithin(s, 1, |s|, sep);
    assert s[1..|s|] == s[1..];
    NotAt(s, sep, 0, 0);
    if Contains(s, sep) {
      var p :| 0 <= p <= |s| && OccursAt(s, sep, p);
      assert s[1..][p - 1..p - 1 + |sep|] == s[p..p + |sep|];
      assert OccursAt(s[1..], sep, p - 1);
    }
  }

  /** Each of three joined texts shows in the whole. */
  lemma JoinedContains(a: string, m: string, b: string, sep: string)
    ensures Contains(a, sep) || m == sep || Contains(b, sep) ==> Contains(a + m + b, sep)
  {
    if Contains(a, sep) {
      Within("", a, m + b, sep);
      assert "" + a + (m + b) == a + m + b;
    } else if m == sep {
      var s := a + m + b;
      assert s[|a|..|a| + |sep|] == sep;
      assert OccursAt(s, sep, |a|);
    } else if Contains(b, sep) {
      Within(a + m, b, "", sep);
      assert a + m + b + "" == a + m + b;
    }
  }

  /** The connectives of a tree show in its text. */
  lemma {:induction false} Present(e: Expr, op: Op)
    ensures Uses(e, op) ==> Contains(Print(e), Sep(op))
  {
    match e {
      case Leaf(_) =>
      case Group(x) =>
        Present(x, op);
        Within("(", Print(x), ")", Sep(op));
      case Join(o, l, r) =>
        Present(l, op);
        Present(r, op);
        JoinedContains(Print(l), Sep(o), Print(r), Sep(op));
    }
  }

  // ------------------------------------------------------------- pieces between connectives

  /** An atom with the parentheses that touch it. */
  datatype Piece = Piece(opens: nat, leaf: string, closes: nat)

  function Repeat(c: char, n: nat): (s: string)
    ensures |s| == n && forall i | 0 <= i < n :: s[i] == c
  {
    seq(n, i => c)
  }

  function PieceText(p: Piece): string {
    Repeat('(', p.opens) + p.leaf + Repeat(')', p.closes)
  }

  function OpenFirst(ps: seq<Piece>): seq<Piece>
    requires ps != []
  {
    ps[0 := ps[0].(opens := ps[0].opens + 1)]
  }

  function CloseLast(ps: seq<Piece>): seq<Piece>
    requires ps != []
  {
    ps[|ps| - 1 := ps[|ps| - 1].(closes := ps[|ps| - 1].closes + 1)]
  }

  function Wrap(ps: seq<Piece>): (r: seq<Piece>)
    requires ps != []
    ensures |r| == |ps|
  {
    CloseLast(OpenFirst(ps))
  }

  function Pieces(e: Expr): (ps: seq<Piece>)
    ensures ps != []
  {
    match e
    case Leaf(t) => [Piece(0, t, 0)]
    case Group(x) => Wrap(Pieces(x))
    case Join(_, l, r) => Pieces(l) + Pieces(r)
  }

  predicate LeafPieces(ps: seq<Piece>) {
    forall i | 0 <= i < |ps| :: LeafText(ps[i].leaf)
  }

  lemma {:induction false} PiecesHaveLeaves(e: Expr)
    requires WellFormed(e)
    ensures LeafPieces(Pieces(e))
  {
    match e {
      case Leaf(_) =>
      case Group(x) => PiecesHaveLeaves(x);
      case Join(_, l, r) =>
        PiecesHaveLeaves(l);
        PiecesHaveLeaves(r);
    }
  }

  function JoinText(ps: seq<Piece>, sep: string): string
    requires ps != []
  {
    if |ps| == 1 then PieceText(ps[0]) else PieceText(ps[0]) + sep + JoinText(ps[1..], sep)
  }

  lemma {:induction false} JoinAppend(a: seq<Piece>, b: seq<Piece>, sep: string)
    requires a != [] && b != []
    ensures JoinText(a + b, sep) == JoinText(a, sep) + sep + JoinText(b, sep)
    decreases a
  {
    assert (a + b)[1..] == a[1..] + b;
    if |a| == 1 {
      assert a[1..] + b == b;
    } else {
      JoinAppend(a[1..], b, sep);
    }
  }

  lemma OpenedText(p: Piece)
    ensures PieceText(p.(opens := p.opens + 1)) == "(" + PieceText(p)
  {
    assert Repeat('(', p.opens + 1) == "(" + Repeat('(', p.opens);
    Assoc("(", Repeat('(', p.opens) + p.leaf, Repeat(')', p.closes));
    Assoc("(", Repeat('(', p.opens), p.leaf);
  }

  lemma ClosedText(p: Piece)
    ensures PieceText(p.(closes := p.closes + 1)) == PieceText(p) + ")"
  {
    assert Repeat(')', p.closes + 1) == Repeat(')', p.closes) + ")";
    Assoc(Repeat('(', p.opens) + p.leaf, Repeat(')', p.closes), ")");
  }

  lemma OpenFirstText(ps: seq<Piece>, sep: string)
    requires ps != []
    ensures JoinText(OpenFirst(ps), sep) == "(" + JoinText(ps, sep)
  {
    OpenedText(ps[0]);
    assert OpenFirst(ps)[1..] == ps[1..];
  }

  lemma {:induction false} CloseLastText(ps: seq<Piece>, sep: string)
    requires ps != []
    ensures JoinText(CloseLast(ps), sep) == JoinText(ps, sep) + ")"
  {
    if |ps| == 1 {
      ClosedText(ps[0]);
    } else {
      CloseLastText(ps[1..], sep);
      assert CloseLast(ps)[1..] == CloseLast(ps[1..]);
    }
  }

  /** A tree with one kind of connective prints as its pieces joined by it. */
  lemma {:induction false} PrintIsJoin(e: Expr, op: Op)
    requires !Uses(e, Other(op))
    ensures Print(e) == JoinText(Pieces(e), Sep(op))
  {
    match e {
      case Leaf(t) => assert PieceText(Piece(0, t, 0)) == t;
      case Group(x) =>
        PrintIsJoin(x, op);
        OpenFirstText(Pieces(x), Sep(op));
        CloseLastText(OpenFirst(Pieces(x)), Sep(op));
      case Join(o, l, r) =>
        PrintIsJoin(l, op);
        PrintIsJoin(r, op);
        JoinAppend(Pieces(l), Pieces(r), Sep(op));
    }
  }

  lemma LeafMore(k: nat, leaf: string, v: string, w: string)
    ensures Repeat('(', k) + (leaf + v) + w == Repeat('(', k) + (leaf + (v + w))
  {
  }

  lemma OpenedMore(k: nat, leaf: string, v: string, w: string)
    ensures "(" + (Repeat('(', k) + (leaf + v)) + w == Repeat('(', k + 1) + (leaf + (v + w))
  {
    assert Repeat('(', k + 1) == "(" + Repeat('(', k);
    LeafMore(k, leaf, v, w);
    Assoc("(", Repeat('(', k) + (leaf + v), w);
    Assoc("(", Repeat('(', k), leaf + (v + w));
  }

  lemma WordShows(v: string, op: Op, more: string)
    ensures !AllBlank(v + (Sep(op) + more))
  {
    assert (v + (Sep(op) + more))[|v| + 1] == Sep(op)[1] && !Blank(Sep(op)[1]);
  }

  /** The text begins with the parentheses and the leaf of the first piece. */
  lemma {:induction false} FirstLeaf(e: Expr) returns (v: string)
    ensures Print(e) == Repeat('(', Pieces(e)[0].opens) + (Pieces(e)[0].leaf + v)
    ensures e.Join? ==> !AllBlank(v)
  {
    match e {
      case Leaf(t) => v := "";
      case Group(x) =>
        v := FirstLeaf(x);
        OpenedMore(Pieces(x)[0].opens, Pieces(x)[0].leaf, v, ")");
        v := v + ")";
      case Join(op, l, r) =>
        v := FirstLeaf(l);
        var w := Sep(op) + Print(r);
        Assoc(Print(l), Sep(op), Print(r));
        LeafMore(Pieces(l)[0].opens, Pieces(l)[0].leaf, v, w);
        WordShows(v, op, Print(r));
        v := v + w;
    }
  }

  // ------------------------------------------------------------- pieces and nesting

  /** Parentheses opened and not closed by the pieces. */
  function Net(ps: seq<Piece>): int {
    if ps == [] then 0 else ps[0].opens - ps[0].closes + Net(ps[1..])
  }

  lemma {:induction false} NetAppend(a: seq<Piece>, b: seq<Piece>)
    ensures Net(a + b) == Net(a) + Net(b)
  {
    if a == [] {
      assert a + b == b;
    } else {
      NetAppend(a[1..], b);
      assert (a + b)[1..] == a[1..] + b;
    }
  }

  lemma NetOpenFirst(ps: seq<Piece>)
    requires ps != []
    ensures Net(OpenFirst(ps)) == Net(ps) + 1
  {
    assert OpenFirst(ps)[1..] == ps[1..];
  }

  lemma {:induction false} NetCloseLast(ps: seq<Piece>)
    requires ps != []
    ensures Net(CloseLast(ps)) == Net(ps) - 1
  {
    if |ps| > 1 {
      NetCloseLast(ps[1..]);
      assert CloseLast(ps)[1..] == CloseLast(ps[1..]);
    } else {
      assert CloseLast(ps)[1..] == ps[1..];
    }
  }

  lemma {:induction false} NetOfTree(e: Expr)
    ensures Net(Pieces(e)) == 0
  {
    match e {
      case Leaf(t) => assert Pieces(e)[1..] == [];
      case Group(x) =>
        NetOfTree(x);
        NetOpenFirst(Pieces(x));
        NetCloseLast(OpenFirst(Pieces(x)));
      case Join(_, l, r) =>
        NetOfTree(l);
        NetOfTree(r);
        NetAppend(Pieces(l), Pieces(r));
    }
  }

  /** Atom bare, or in one pair of parentheses that close where they should. */
  predicate Readable(p: Piece) {
    (p.opens == 0 && p.closes == 0) || (p.opens == 1 && p.closes == 1 && Balanced(p.leaf))
  }

  /** A part of a chain that parses. */
  predicate GoodPiece(p: Piece, sep: string) {
    !Contains(p.leaf, sep) && Readable(p)
  }

  predicate AllGood(ps: seq<Piece>, sep: string) {
    forall i | 0 <= i < |ps| :: GoodPiece(ps[i], sep)
  }

  lemma {:induction false} GoodNet(ps: seq<Piece>, sep: string)
    requires AllGood(ps, sep)
    ensures Net(ps) == 0
  {
    if ps != [] {
      GoodNet(ps[1..], sep);
    }
  }

  /** The tree's own view of the same: atoms and atoms in parentheses, none of which holds the connective. */
  predicate Separable(e: Expr, op: Op) {
    match e
    case Leaf(t) => !Contains(t, Sep(op))
    case Group(x) => x.Leaf? && Balanced(x.text) && !Contains(x.text, Sep(op))
    case Join(_, l, r) => Separable(l, op) && Separable(r, op)
  }

  lemma {:induction false} FirstOpensMore(e: Expr)
    ensures Pieces(e)[0].opens >= Pieces(e)[0].closes
    ensures e.Group? ==> Pieces(e)[0].opens > 0
  {
    match e {
      case Leaf(_) =>
      case Group(x) => FirstOpensMore(x);
      case Join(_, l, _) => FirstOpensMore(l);
    }
  }

  lemma ConcatGood(a: seq<Piece>, b: seq<Piece>, sep: string)
    ensures AllGood(a + b, sep) <==> AllGood(a, sep) && AllGood(b, sep)
  {
    assert forall i | 0 <= i < |a| :: (a + b)[i] == a[i];
    assert forall i | 0 <= i < |b| :: (a + b)[|a| + i] == b[i];
  }

  lemma {:induction false} SeparableIsGood(e: Expr, op: Op)
    ensures Separable(e, op) <==> AllGood(Pieces(e), Sep(op))
  {
    match e {
      case Leaf(t) =>
        assert Pieces(e)[0] == Piece(0, t, 0);
      case Group(x) =>
        FirstOpensMore(x);
        if x.Leaf? {
          assert Pieces(e)[0] == Piece(1, x.text, 1);
        } else {
          assert !GoodPiece(Pieces(e)[0], Sep(op));
        }
      case Join(_, l, r) =>
        SeparableIsGood(l, op);
        SeparableIsGood(r, op);
        ConcatGood(Pieces(l), Pieces(r), Sep(op));
    }
  }
}
