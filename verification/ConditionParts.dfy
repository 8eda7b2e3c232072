/**
 cmd/write-a/conditional.go: cutting the text of a condition at a connective and reading the parts.
 Each part is a piece of the tree, or a beginning of one when the connective stands inside an atom.
 */
module ConditionParts {
  import opened AtomSyntax
  import opened ConditionTrees
  import opened Conditional
  import opened Expressions
  import opened Options
  import opened Sequences
  import opened Text

  // ------------------------------------------------------------- parsing one part

  function Lowered(t: string): Parsed
    requires LeafText(t)
  {
    Lower(MatchAtom(t).value)
  }

  lemma LoweredName(t: string)
    requires LeafText(t)
    ensures Lowered(t).varname == MatchAtom(t).value.varname != ""
  {
    LeafStart(t);
  }

  /** The whole text of a piece, or a beginning of it that ends inside the atom. */
  predicate WholeOrCut(p: Piece, n: nat) {
    n == |PieceText(p)| || n < p.opens + |p.leaf|
  }

  lemma ParenIsNoAtom(s: string)
    requires s != "" ==> s[0] == '('
    ensures MatchAtom(s).None?
  {
  }

  lemma BareAtom(leaf: string, closes: nat)
    requires LeafText(leaf)
    ensures MatchAtom(leaf + Repeat(')', closes)) == if closes == 0 then MatchAtom(leaf) else None
  {
    var u := Repeat(')', closes);
    assert closes > 0 ==> u[0] == ')';
    assert AllBlank(u) <==> closes == 0;
    NothingFollows(leaf, u);
  }

  /** A beginning of a piece is an atom only if it is the atom of a bare piece. */
  lemma PrefixAtom(p: Piece, n: nat)
    requires LeafText(p.leaf) && n <= |PieceText(p)| && WholeOrCut(p, n)
    ensures MatchAtom(PieceText(p)[..n])
      == if p.opens == 0 && p.closes == 0 && n == |PieceText(p)| then MatchAtom(p.leaf) else None
  {
    var s := PieceText(p)[..n];
    if p.opens > 0 {
      ParenIsNoAtom(s);
    } else if n < |p.leaf| {
      CutAtom(p.leaf, n);
      assert s == p.leaf[..n];
    } else {
      BareAtom(p.leaf, p.closes);
      assert s == p.leaf + Repeat(')', p.closes);
    }
  }

  lemma PieceEdges(p: Piece)
    requires LeafText(p.leaf)
    ensures PieceText(p) != "" && Trimmed(PieceText(p))
  {
    LeafShape(p.leaf);
  }

  /** Trimming a beginning of a piece leaves a shorter beginning. */
  lemma TrimPrefix(p: Piece, n: nat) returns (n': nat)
    requires LeafText(p.leaf) && n <= |PieceText(p)| && WholeOrCut(p, n)
    ensures n' <= n && TrimSpace(PieceText(p)[..n]) == PieceText(p)[..n']
    ensures WholeOrCut(p, n') && (n' == |PieceText(p)| <==> n == |PieceText(p)|)
  {
    var s := PieceText(p);
    PieceEdges(p);
    if n == |s| {
      n' := n;
      assert s[..n] == s;
      TrimmedIsTrim(s);
    } else {
      assert n > 0 ==> s[..n][0] == s[0];
      assert TrimLeft(s[..n]) == s[..n];
      n' := |TrimSpace(s[..n])|;
    }
  }

  /** What lies between the outer parentheses of a whole piece. */
  lemma WholeInside(p: Piece)
    requires p.opens > 0 && p.closes > 0
    ensures var s := PieceText(p);
      |s| >= 2 && s[1..|s| - 1] == PieceText(Piece(p.opens - 1, p.leaf, p.closes - 1))
  {
    var q := Piece(p.opens - 1, p.leaf, p.closes - 1);
    OpenedText(q);
    ClosedText(q.(opens := q.opens + 1));
    assert ("(" + PieceText(q) + ")")[1..|PieceText(q)| + 1] == PieceText(q);
  }

  lemma Shifted(c: string, t: string, n: nat)
    requires |c| == 1 && 2 <= n <= |t| + 1
    ensures (c + t)[..n][1..n - 1] == t[..n - 2]
  {
  }

  /** And of a beginning that ends inside the atom. */
  lemma CutInside(p: Piece, n: nat)
    requires p.opens > 0 && 2 <= n <= p.opens + |p.leaf|
    ensures n <= |PieceText(p)| && n - 2 < |PieceText(p.(opens := p.opens - 1))|
    ensures PieceText(p)[..n][1..n - 1] == PieceText(p.(opens := p.opens - 1))[..n - 2]
  {
    var t := PieceText(p.(opens := p.opens - 1));
    OpenedText(p.(opens := p.opens - 1));
    Shifted("(", t, n);
  }

  lemma StripWhole(p: Piece)
    requires LeafText(p.leaf) && p.opens > 0 && p.closes > 0 && Spans(PieceText(p), 0, 0)
    ensures StripOuter(PieceText(p)) == PieceText(Piece(p.opens - 1, p.leaf, p.closes - 1))
  {
    var q := Piece(p.opens - 1, p.leaf, p.closes - 1);
    WholeInside(p);
    assert PieceText(p)[0] == '(' && PieceText(p)[|PieceText(p)| - 1] == ')';
    PieceEdges(q);
    TrimmedIsTrim(PieceText(q));
  }

  lemma StripCut(p: Piece, n: nat) returns (n': nat)
    requires LeafText(p.leaf) && p.opens > 0 && n <= p.opens + |p.leaf|
    requires Parenthesised(PieceText(p)[..n]) && Spans(PieceText(p)[..n], 0, 0)
    ensures var q := p.(opens := p.opens - 1);
      n' < |PieceText(q)| && WholeOrCut(q, n') && StripOuter(PieceText(p)[..n]) == PieceText(q)[..n']
  {
    hide Spans;
    var q := p.(opens := p.opens - 1);
    CutInside(p, n);
    n' := TrimPrefix(q, n - 2);
  }

  lemma BareStart(p: Piece, n: nat)
    requires LeafText(p.leaf) && 0 < n <= |PieceText(p)| && p.opens == 0
    ensures PieceText(p)[..n][0] != '('
  {
    LeafShape(p.leaf);
    assert PieceText(p)[0] == p.leaf[0];
  }

  lemma OneParenText(p: Piece)
    requires p.opens == 1 && p.closes == 1
    ensures PieceText(p) == "(" + p.leaf + ")"
  {
    assert Repeat('(', 1) == "(" && Repeat(')', 1) == ")";
  }

  lemma SpannedPiece(p: Piece)
    ensures p.opens == 1 && p.closes == 1 ==>
      Parenthesised(PieceText(p)) && (Spans(PieceText(p), 0, 0) <==> Balanced(p.leaf))
  {
    if p.opens == 1 && p.closes == 1 {
      OneParenText(p);
      SpansExactly(p.leaf);
    }
  }

  /** Stripping a beginning of a piece leaves a beginning of a piece; it is a bare atom only for readable whole pieces. */
  lemma StripPrefix(p: Piece, n: nat) returns (q: Piece, n': nat)
    requires LeafText(p.leaf) && n <= |PieceText(p)| && WholeOrCut(p, n)
    ensures q.leaf == p.leaf && n' <= |PieceText(q)| && WholeOrCut(q, n')
    ensures StripOuter(PieceText(p)[..n]) == PieceText(q)[..n']
    ensures q.opens == 0 && q.closes == 0 && n' == |PieceText(q)| <==> Readable(p) && n == |PieceText(p)|
  {
    var s := PieceText(p)[..n];
    SpannedPiece(p);
    if n == |PieceText(p)| {
      assert s == PieceText(p);
    }
    if p.opens == 0 && n > 0 {
      BareStart(p, n);
    }
    if Parenthesised(s) && Spans(s, 0, 0) {
      if n == |PieceText(p)| && p.closes > 0 {
        StripWhole(p);
        q := Piece(p.opens - 1, p.leaf, p.closes - 1);
        n' := |PieceText(q)|;
        assert PieceText(q)[..n'] == PieceText(q);
      } else {
        q := p.(opens := p.opens - 1);
        n' := StripCut(p, n);
      }
    } else {
      q, n' := p, n;
    }
  }

  lemma {:induction false} TrimLeftIsSuffix(s: string)
    ensures exists a :: 0 <= a <= |s| && TrimLeft(s) == s[a..]
  {
    if s != "" && IsSpace(s[0]) {
      TrimLeftIsSuffix(s[1..]);
      var a :| 0 <= a <= |s[1..]| && TrimLeft(s[1..]) == s[1..][a..];
      assert s[1..][a..] == s[a + 1..];
    } else {
      assert s[0..] == s;
    }
  }

  lemma TrimIsSlice(s: string)
    ensures exists a, b :: 0 <= a <= b <= |s| && TrimSpace(s) == s[a..b]
  {
    TrimLeftIsSuffix(s);
    var a :| 0 <= a <= |s| && TrimLeft(s) == s[a..];
    var b := a + |TrimSpace(s)|;
    assert TrimSpace(s) == s[a..][..|TrimSpace(s)|];
    assert TrimSpace(s) == s[a..b];
  }

  lemma TrimHasNone(s: string, sep: string)
    requires !Contains(s, sep)
    ensures !Contains(TrimSpace(s), sep)
  {
    TrimIsSlice(s);
    var a, b :| 0 <= a <= b <= |s| && TrimSpace(s) == s[a..b];
    SliceWithin(s, a, b, sep);
  }

  lemma StripHasNone(s: string, sep: string)
    requires !Contains(s, sep)
    ensures !Contains(StripOuter(s), sep)
  {
    if Parenthesised(s) {
      SliceWithin(s, 1, |s| - 1, sep);
      TrimHasNone(s[1..|s| - 1], sep);
    }
  }

  lemma PartHasNone(part: string, sep: string)
    requires !Contains(part, sep)
    ensures !Contains(StripOuter(TrimSpace(TrimSpace(part))), sep)
  {
    TrimHasNone(part, sep);
    TrimHasNone(TrimSpace(part), sep);
    StripHasNone(TrimSpace(TrimSpace(part)), sep);
  }

  /** A part without connectives is recognised exactly when it is a whole readable piece. */
  lemma PartParse(p: Piece, n: nat)
    requires LeafText(p.leaf) && n <= |PieceText(p)| && WholeOrCut(p, n)
    requires !Contains(PieceText(p)[..n], OR) && !Contains(PieceText(p)[..n], AND)
    ensures ParseArch(TrimSpace(PieceText(p)[..n]))
      == if Readable(p) && n == |PieceText(p)| then Lowered(p.leaf) else REJECT
  {
    var part := PieceText(p)[..n];
    var n1 := TrimPrefix(p, n);
    var n2 := TrimPrefix(p, n1);
    var q, n3 := StripPrefix(p, n2);
    PartHasNone(part, OR);
    PartHasNone(part, AND);
    PrefixAtom(q, n3);
  }

  // ------------------------------------------------------------- parsing a chain

  predicate AllNamed(qs: seq<Parsed>, v: string) {
    forall q | q in qs :: q.varname == v
  }

  predicate AllRecognised(qs: seq<Parsed>) {
    forall q | q in qs :: q.varname != ""
  }

  predicate SomeAllows(qs: seq<Parsed>, x: string) {
    exists q | q in qs :: x in q.arches
  }

  predicate EveryAllows(qs: seq<Parsed>, x: string) {
    forall q | q in qs :: x in q.arches
  }

  predicate SomeFires(qs: seq<Parsed>, tuple: Tuple) {
    exists q | q in qs :: Allows(q, tuple)
  }

  function Readings(ts: seq<string>): (rs: seq<Parsed>)
    ensures |rs| == |ts| && forall i | 0 <= i < |ts| :: rs[i] == ParseArch(TrimSpace(ts[i]))
  {
    if ts == [] then [] else [ParseArch(TrimSpace(ts[0]))] + Readings(ts[1..])
  }

  /** The loop of parseArchChain on parts already parsed. */
  function Fold(qs: seq<Parsed>, intersect: bool, lhs: string, out: seq<string>, first: bool): Parsed
    decreases qs
  {
    if qs == [] then Parsed(lhs, out)
    else if qs[0].varname == "" || (lhs != "" && lhs != qs[0].varname) then REJECT
    else Fold(qs[1..], intersect, qs[0].varname, Combine(intersect, first, out, qs[0].arches), false)
  }

  lemma {:induction false} ChainIsFold(ts: seq<string>, limit: nat, intersect: bool, lhs: string,
                                       out: seq<string>, first: bool)
    requires forall t | t in ts :: |t| < limit
    ensures Chain(ts, limit, intersect, lhs, out, first) == Fold(Readings(ts), intersect, lhs, out, first)
    decreases ts
  {
    if ts != [] {
      var q := ParseArch(TrimSpace(ts[0]));
      if q.varname != "" && (lhs == "" || lhs == q.varname) {
        ChainIsFold(ts[1..], limit, intersect, q.varname, Combine(intersect, first, out, q.arches), false);
      }
    }
  }

  /** The rest of a chain adds its own values, or keeps only the shared ones. */
  lemma {:induction false} FoldRest(qs: seq<Parsed>, intersect: bool, lhs: string, out: seq<string>)
    requires lhs != ""
    ensures var r := Fold(qs, intersect, lhs, out, false);
      && (r.varname == if AllNamed(qs, lhs) then lhs else "")
      && (AllNamed(qs, lhs) ==> forall x :: x in r.arches <==>
          if intersect then x in out && EveryAllows(qs, x) else x in out || SomeAllows(qs, x))
    decreases qs
  {
    if qs != [] {
      assert qs == [qs[0]] + qs[1..];
      assert qs[0] in qs;
      if qs[0].varname == lhs {
        FoldRest(qs[1..], intersect, lhs, Combine(intersect, false, out, qs[0].arches));
      }
    }
  }

  lemma {:induction false} FoldWhole(qs: seq<Parsed>, intersect: bool)
    requires qs != []
    ensures var r := Fold(qs, intersect, "", [], true);
      var v := qs[0].varname;
      && (r.varname == if AllNamed(qs, v) then v else "")
      && (v != "" && AllNamed(qs, v) ==> forall x :: x in r.arches <==>
          if intersect then EveryAllows(qs, x) else SomeAllows(qs, x))
  {
    var v := qs[0].varname;
    assert qs == [qs[0]] + qs[1..];
    if v != "" {
      FoldRest(qs[1..], intersect, v, Combine(intersect, true, [], qs[0].arches));
    }
  }

  lemma {:induction false} RecognisedStep(p: Parsed, rest: seq<Parsed>)
    ensures AllRecognised([p] + rest) <==> p.varname != "" && AllRecognised(rest)
  {
    assert p in [p] + rest;
  }

  lemma {:induction false} ParseAllIs(ts: seq<string>)
    ensures ParseAll(ts) == if AllRecognised(Readings(ts)) then Some(Readings(ts)) else None
  {
    if ts != [] {
      ParseAllIs(ts[1..]);
      RecognisedStep(ParseArch(TrimSpace(ts[0])), Readings(ts[1..]));
    }
  }

  // ------------------------------------------------------------- cutting a text into parts

  /** A separator shares no byte with parentheses and the ends of atoms. */
  ghost predicate Separator(sep: string) {
    sep != "" && forall c | c in sep :: c != '(' && !Closer(c)
  }

  lemma ConnectivesSeparate(op: Op)
    ensures Separator(Sep(op)) && Separator(Sep(Other(op)))
  {
  }

  predicate BeginsWith(u: string, sep: string) {
    |sep| <= |u| && u[..|sep|] == sep
  }

  lemma PieceByte(p: Piece, q: nat)
    requires q < |PieceText(p)|
    ensures q < p.opens ==> PieceText(p)[q] == '('
    ensures p.opens <= q < p.opens + |p.leaf| ==> PieceText(p)[q] == p.leaf[q - p.opens]
    ensures p.opens + |p.leaf| <= q ==> PieceText(p)[q] == ')'
  {
  }

  lemma OccursOutside(p: Piece, sep: string, u: string, q: nat)
    requires Separator(sep) && q < |PieceText(p)| && !(p.opens <= q < p.opens + |p.leaf|)
    ensures !OccursAt(PieceText(p) + u, sep, q)
  {
    var s := PieceText(p) + u;
    PieceByte(p, q);
    assert s[q] == PieceText(p)[q];
    assert sep[0] in sep;
    NotAt(s, sep, q, 0);
  }

  lemma OccursAcross(p: Piece, sep: string, u: string, q: nat)
    requires Separator(sep) && LeafText(p.leaf) && q < p.opens + |p.leaf| < q + |sep|
    ensures !OccursAt(PieceText(p) + u, sep, q)
  {
    var s, last := PieceText(p) + u, p.opens + |p.leaf| - 1;
    LeafShape(p.leaf);
    PieceByte(p, last);
    assert s[last] == PieceText(p)[last];
    assert sep[last - q] in sep;
    NotAt(s, sep, q, last - q);
  }

  /** Occurrences of a separator that begin in a piece lie in its leaf. */
  lemma OccursInLeaf(p: Piece, sep: string, u: string, q: nat)
    requires Separator(sep) && LeafText(p.leaf) && q < |PieceText(p)|
    ensures OccursAt(PieceText(p) + u, sep, q) <==> q >= p.opens && OccursAt(p.leaf, sep, q - p.opens)
  {
    var s := PieceText(p) + u;
    if !(p.opens <= q < p.opens + |p.leaf|) {
      OccursOutside(p, sep, u, q);
      assert sep != "";
    } else if p.opens + |p.leaf| < q + |sep| {
      OccursAcross(p, sep, u, q);
    } else {
      assert s[q..q + |sep|] == p.leaf[q - p.opens..q - p.opens + |sep|];
    }
  }

  /** The text up to the first occurrence of a separator. */
  function FirstCut(s: string, sep: string): string {
    if Index(s, sep) < 0 then s else s[..Index(s, sep)]
  }

  lemma IndexInLeaf(p: Piece, sep: string, u: string)
    requires Separator(sep) && LeafText(p.leaf) && Contains(p.leaf, sep)
    ensures Index(PieceText(p) + u, sep) == p.opens + Index(p.leaf, sep) < p.opens + |p.leaf|
  {
    var n := p.opens + Index(p.leaf, sep);
    OccursInLeaf(p, sep, u, n);
    forall q | 0 <= q < n
      ensures !OccursAt(PieceText(p) + u, sep, q)
    {
      OccursInLeaf(p, sep, u, q);
    }
    IndexIs(PieceText(p) + u, sep, n);
  }

  lemma IndexAfterPiece(p: Piece, sep: string, u: string)
    requires Separator(sep) && LeafText(p.leaf) && !Contains(p.leaf, sep) && (u == "" || BeginsWith(u, sep))
    ensures Index(PieceText(p) + u, sep) == if u == "" then -1 else |PieceText(p)|
  {
    var s, n := PieceText(p) + u, |PieceText(p)|;
    forall q | 0 <= q < n
      ensures !OccursAt(s, sep, q)
    {
      OccursInLeaf(p, sep, u, q);
    }
    if u != "" {
      assert s[n..n + |sep|] == u[..|sep|];
      IndexIs(s, sep, n);
    }
  }

  /** The first part is the whole first piece, or a beginning cut inside a leaf that holds the separator. */
  lemma FirstPart(p: Piece, sep: string, u: string) returns (n: nat)
    requires Separator(sep) && LeafText(p.leaf) && (u == "" || BeginsWith(u, sep))
    ensures n <= |PieceText(p)| && WholeOrCut(p, n)
    ensures n == |PieceText(p)| <==> !Contains(p.leaf, sep)
    ensures FirstCut(PieceText(p) + u, sep) == PieceText(p)[..n]
  {
    if Contains(p.leaf, sep) {
      IndexInLeaf(p, sep, u);
      n := p.opens + Index(p.leaf, sep);
      assert (PieceText(p) + u)[..n] == PieceText(p)[..n];
    } else {
      IndexAfterPiece(p, sep, u);
      n := |PieceText(p)|;
      Cut(PieceText(p), u);
      WholePrefix(PieceText(p));
      assert u == "" ==> PieceText(p) + u == PieceText(p);
    }
  }

  lemma SplitFirst(s: string, sep: string)
    requires sep != ""
    ensures Split(s, sep)[0] == FirstCut(s, sep)
    ensures Index(s, sep) < 0 ==> Split(s, sep) == [s]
    ensures Index(s, sep) >= 0 ==> Split(s, sep)[1..] == Split(s[Index(s, sep) + |sep|..], sep)
  {
  }

  lemma ChainText(ps: seq<Piece>, sep: string, u: string)
    requires |ps| > 1
    ensures JoinText(ps, sep) + u == PieceText(ps[0]) + (sep + (JoinText(ps[1..], sep) + u))
  {
    Assoc(PieceText(ps[0]) + sep, JoinText(ps[1..], sep), u);
    Assoc(PieceText(ps[0]), sep, JoinText(ps[1..], sep) + u);
  }

  /** Once a whole first piece is cut off, the rest of the chain is split. */
  lemma SplitRest(ps: seq<Piece>, sep: string, u: string)
    requires Separator(sep) && |ps| > 1 && LeafPieces(ps) && !Contains(ps[0].leaf, sep)
    ensures Split(JoinText(ps, sep) + u, sep)[1..] == Split(JoinText(ps[1..], sep) + u, sep)
  {
    var rest := JoinText(ps[1..], sep) + u;
    ChainText(ps, sep, u);
    Cut(sep, rest);
    IndexAfterPiece(ps[0], sep, sep + rest);
    SplitFirst(JoinText(ps, sep) + u, sep);
    Cut(PieceText(ps[0]) + sep, rest);
    Assoc(PieceText(ps[0]), sep, rest);
  }

  lemma SplitHead(ps: seq<Piece>, sep: string, u: string) returns (n: nat)
    requires Separator(sep) && ps != [] && LeafPieces(ps) && (u == "" || BeginsWith(u, sep))
    ensures n <= |PieceText(ps[0])| && WholeOrCut(ps[0], n)
    ensures n == |PieceText(ps[0])| <==> !Contains(ps[0].leaf, sep)
    ensures Split(JoinText(ps, sep) + u, sep)[0] == PieceText(ps[0])[..n]
  {
    SplitFirst(JoinText(ps, sep) + u, sep);
    if |ps| > 1 {
      ChainText(ps, sep, u);
      Cut(sep, JoinText(ps[1..], sep) + u);
      n := FirstPart(ps[0], sep, sep + (JoinText(ps[1..], sep) + u));
    } else {
      n := FirstPart(ps[0], sep, u);
    }
  }

  /** Part `i` of the split text, as long as no earlier leaf holds the separator. */
  lemma {:induction false} PartAt(ps: seq<Piece>, sep: string, u: string, i: nat) returns (n: nat)
    requires Separator(sep) && i < |ps| && LeafPieces(ps) && (u == "" || BeginsWith(u, sep))
    requires forall j | 0 <= j < i :: !Contains(ps[j].leaf, sep)
    ensures n <= |PieceText(ps[i])| && WholeOrCut(ps[i], n)
    ensures n == |PieceText(ps[i])| <==> !Contains(ps[i].leaf, sep)
    ensures i < |Split(JoinText(ps, sep) + u, sep)| && Split(JoinText(ps, sep) + u, sep)[i] == PieceText(ps[i])[..n]
    decreases i
  {
    hide Split, JoinText, PieceText, LeafText, WholeOrCut;
    if i == 0 {
      n := SplitHead(ps, sep, u);
    } else {
      var parts := Split(JoinText(ps, sep) + u, sep);
      SplitRest(ps, sep, u);
      n := PartAt(ps[1..], sep, u, i - 1);
      DropDrop(ps, 1, i - 1);
      assert parts[1..][i - 1] == parts[i];
    }
  }

  lemma {:induction false} PartsCount(ps: seq<Piece>, sep: string)
    requires Separator(sep) && ps != [] && LeafPieces(ps)
    requires forall j | 0 <= j < |ps| :: !Contains(ps[j].leaf, sep)
    ensures |Split(JoinText(ps, sep), sep)| == |ps|
    decreases ps
  {
    assert JoinText(ps, sep) + "" == JoinText(ps, sep);
    if |ps| == 1 {
      IndexAfterPiece(ps[0], sep, "");
      assert PieceText(ps[0]) + "" == PieceText(ps[0]);
    } else {
      assert JoinText(ps[1..], sep) + "" == JoinText(ps[1..], sep);
      SplitRest(ps, sep, "");
      PartsCount(ps[1..], sep);
    }
  }

  // ------------------------------------------------------------- reading the parts

  lemma PrefixOccurs(s: string, i: nat, sep: string, p: nat)
    requires i <= |s| && OccursAt(s[..i], sep, p)
    ensures OccursAt(s, sep, p)
  {
    assert s[..i][p..p + |sep|] == s[p..p + |sep|];
  }

  lemma FirstCutHasNone(s: string, sep: string)
    requires sep != ""
    ensures !Contains(FirstCut(s, sep), sep)
  {
    var i := Index(s, sep);
    if i >= 0 {
      forall p | 0 <= p <= i
        ensures !OccursAt(s[..i], sep, p)
      {
        if OccursAt(s[..i], sep, p) {
          PrefixOccurs(s, i, sep, p);
        }
      }
    }
  }

  /** A part of a split text holds neither the separator nor anything the text does not hold. */
  lemma {:induction false} PartsAreFree(s: string, sep: string, other: string)
    requires sep != "" && !Contains(s, other)
    ensures forall part | part in Split(s, sep) :: !Contains(part, sep) && !Contains(part, other)
    decreases |s|
  {
    var i := Index(s, sep);
    FirstCutHasNone(s, sep);
    if i >= 0 {
      SliceWithin(s, 0, i, other);
      assert s[0..i] == s[..i];
      SliceWithin(s, i + |sep|, |s|, other);
      assert s[i + |sep|..|s|] == s[i + |sep|..];
      PartsAreFree(s[i + |sep|..], sep, other);
    }
  }

  function LoweredAll(ps: seq<Piece>): (qs: seq<Parsed>)
    requires LeafPieces(ps)
    ensures |qs| == |ps| && forall i | 0 <= i < |ps| :: qs[i] == Lowered(ps[i].leaf)
  {
    if ps == [] then [] else [Lowered(ps[0].leaf)] + LoweredAll(ps[1..])
  }

  /** What part `i` reads as, as long as the earlier parts are good. */
  lemma ReadingAt(ps: seq<Piece>, op: Op, u: string, i: nat)
    requires i < |ps| && LeafPieces(ps) && (u == "" || BeginsWith(u, Sep(op)))
    requires forall j | 0 <= j < i :: GoodPiece(ps[j], Sep(op))
    requires !Contains(JoinText(ps, Sep(op)) + u, Sep(Other(op)))
    ensures var rs := Readings(Split(JoinText(ps, Sep(op)) + u, Sep(op)));
      i < |rs| && rs[i] == if GoodPiece(ps[i], Sep(op)) then Lowered(ps[i].leaf) else REJECT
  {
    ConnectivesSeparate(op);
    var n := PartAt(ps, Sep(op), u, i);
    var parts := Split(JoinText(ps, Sep(op)) + u, Sep(op));
    PartsAreFree(JoinText(ps, Sep(op)) + u, Sep(op), Sep(Other(op)));
    assert parts[i] in parts;
    PartParse(ps[i], n);
  }

  lemma {:induction false} FirstBad(ps: seq<Piece>, sep: string) returns (i: nat)
    requires !AllGood(ps, sep)
    ensures i < |ps| && !GoodPiece(ps[i], sep) && forall j | 0 <= j < i :: GoodPiece(ps[j], sep)
  {
    if GoodPiece(ps[0], sep) {
      i := FirstBad(ps[1..], sep);
      i := i + 1;
    } else {
      i := 0;
    }
  }

  /** A chain with a bad piece is rejected, whatever follows it. */
  lemma ChainRejects(ps: seq<Piece>, op: Op, u: string)
    requires ps != [] && LeafPieces(ps) && (u == "" || BeginsWith(u, Sep(op))) && !AllGood(ps, Sep(op))
    requires !Contains(JoinText(ps, Sep(op)) + u, Sep(Other(op)))
    ensures !AllRecognised(Readings(Split(JoinText(ps, Sep(op)) + u, Sep(op))))
  {
    var i := FirstBad(ps, Sep(op));
    ReadingAt(ps, op, u, i);
    var rs := Readings(Split(JoinText(ps, Sep(op)) + u, Sep(op)));
    assert rs[i] in rs;
  }

  /** A chain of good pieces reads as its lowered atoms. */
  lemma ChainReads(ps: seq<Piece>, op: Op)
    requires ps != [] && LeafPieces(ps) && AllGood(ps, Sep(op))
    requires !Contains(JoinText(ps, Sep(op)), Sep(Other(op)))
    ensures Readings(Split(JoinText(ps, Sep(op)), Sep(op))) == LoweredAll(ps)
  {
    ConnectivesSeparate(op);
    PartsCount(ps, Sep(op));
    assert JoinText(ps, Sep(op)) + "" == JoinText(ps, Sep(op));
    forall i | 0 <= i < |ps|
      ensures Readings(Split(JoinText(ps, Sep(op)), Sep(op)))[i] == LoweredAll(ps)[i]
    {
      ReadingAt(ps, op, "", i);
    }
  }
}
