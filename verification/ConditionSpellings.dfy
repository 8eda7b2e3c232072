/**
 cmd/write-a/conditional.go: a documented condition that the recogniser does not read as the one
 test it spells: the parser takes it for a disjunction, and it matches a value outside its list.
 Only a connective within such a spelling can do that.
 */
module ConditionSpellings {
  import opened AtomSyntax
  import opened ConditionReading
  import opened ConditionShapes
  import opened ConditionTrees
  import opened Conditional
  import opened ExpressionMeaning
  import opened Expressions
  import opened Options
  import opened Text

  function MembershipText(body: string): string {
    "a" + (" " + "in" + (" (" + body + ")"))
  }

  const LEFT_BODY := InQuotes("p", '"') + ", \"x"
  const RIGHT_BODY := "y" + (InQuotes(", ", '"') + "q\"")
  const LEFT_PART := MembershipText(LEFT_BODY)
  const RIGHT_PART := MembershipText(RIGHT_BODY)

  lemma LeftChunks()
    ensures QuotedChunks(LEFT_BODY) == ["p"]
  {
    ChunkRead("p", '"', ", \"x");
    assert ", \"x" == ", " + "\"x";
    CommaSkipped("\"x");
    assert "\"x"[1..] == "x" && "x"[1..] == "";
    assert QuotedAt("\"x").None? && QuotedAt("x").None?;
    assert QuotedChunks("\"x") == QuotedChunks("x") == QuotedChunks("") == [];
    assert ["p"] + [] == ["p"];
  }

  lemma RightChunks()
    ensures QuotedChunks(RIGHT_BODY) == [", "]
  {
    assert RIGHT_BODY[1..] == InQuotes(", ", '"') + "q\"";
    ChunkRead(", ", '"', "q\"");
    assert "q\""[1..] == "\"" && "\""[1..] == "";
    assert QuotedAt("q\"").None? && QuotedAt("\"").None?;
    assert QuotedChunks("q\"") == QuotedChunks("\"") == QuotedChunks("") == [];
    assert QuotedChunks(RIGHT_BODY) == QuotedChunks(RIGHT_BODY[1..]);
    assert [", "] + [] == [", "];
  }

  /** A byte of the separator, always at the same place in it, that the text lacks. */
  lemma LetterAbsent(s: string, sep: string, k: nat)
    requires k < |sep| && sep[k] !in s
    ensures !Contains(s, sep)
  {
    forall p | 0 <= p <= |s|
      ensures !OccursAt(s, sep, p)
    {
      if p + k < |s| {
        assert s[p + k] in s;
        NotAt(s, sep, p, k);
      }
    }
  }

  /** A membership test with one value and without the letters the connectives need. */
  ghost predicate IsPart(part: string, v: string) {
    && part != "" && part[0] == 'a' && part[|part| - 1] == ')' && 'r' !in part && 'd' !in part
    && LeafText(part) && MatchAtom(part) == Some(In("a", [v]))
  }

  /** Two such tests around an `or`. */
  function Pair(left: string, right: string): Expr {
    Join(OrOp, Leaf(left), Leaf(right))
  }

  lemma PairRecognised(left: string, v: string, right: string, u: string)
    requires IsPart(left, v) && IsPart(right, u)
    ensures WellFormed(Pair(left, right)) && Recognised(Pair(left, right))
  {
    LetterAbsent(left, OR, 2);
    LetterAbsent(right, OR, 2);
    assert 'd' !in left + OR + right;
    LetterAbsent(left + OR + right, AND, 3);
    var l, r := Leaf(left), Leaf(right);
    assert Separable(l, OrOp) && Separable(r, OrOp);
    assert Print(Pair(left, right)) == Print(l) + OR + Print(r) == left + OR + right;
    assert ChainOf(Pair(left, right), OrOp);
    assert OnlyVariable(l, "a") && OnlyVariable(r, "a") && FirstVariable(l) == "a";
  }

  lemma PairFires(left: string, v: string, right: string, u: string)
    requires IsPart(left, v) && IsPart(right, u)
    ensures WellFormed(Pair(left, right)) && Fires(Pair(left, right), map["a" := u])
  {
    assert "a"[0] != TARGET_ARCH[0];
    assert Holds(In("a", [u]), map["a" := u]);
  }

  lemma PairExact(e: Expr, tuple: Tuple)
    requires WellFormed(e) && Recognised(e) && Fires(e, tuple)
    ensures Matches(Print(e), tuple)
  {
    MatchExact(e, tuple);
  }

  lemma PairMatches(left: string, v: string, right: string, u: string)
    requires IsPart(left, v) && IsPart(right, u)
    ensures Matches(Print(Pair(left, right)), map["a" := u])
  {
    PairRecognised(left, v, right, u);
    PairFires(left, v, right, u);
    PairExact(Pair(left, right), map["a" := u]);
  }

  lemma LettersOfText(body: string)
    requires 'r' !in body && 'd' !in body
    ensures var part := MembershipText(body);
      part[0] == 'a' && part[|part| - 1] == ')' && 'r' !in part && 'd' !in part
  {
    var inner := " (" + body + ")";
    assert 'r' !in inner && 'd' !in inner;
    var tail := " " + "in" + inner;
    assert 'r' !in tail && 'd' !in tail && tail[|tail| - 1] == ')';
  }

  lemma {:induction false} TextIsPart(body: string, v: string)
    requires body != "" && ')' !in body && 'r' !in body && 'd' !in body
    requires QuotedChunks(body) == [v]
    ensures IsPart(MembershipText(body), v)
  {
    MembershipSpelled("a", body);
    LettersOfText(body);
  }

  lemma LeftIsPart()
    ensures IsPart(LEFT_PART, "p")
  {
    LeftChunks();
    TextIsPart(LEFT_BODY, "p");
  }

  lemma RightIsPart()
    ensures IsPart(RIGHT_PART, ", ")
  {
    RightChunks();
    TextIsPart(RIGHT_BODY, ", ");
  }

  lemma NotListed(v: string)
    requires |v| == 2
    ensures v != "p" && !Holds(In("a", ["p", "x) or a in (y", "q"]), map["a" := v])
  {
  }

  lemma ListOfThree(a: string, b: string, c: string, q: char)
    ensures List([a, b, c], q) == InQuotes(a, q) + ", " + (InQuotes(b, q) + ", " + InQuotes(c, q))
  {
    assert [a, b, c][1..] == [b, c] && [b, c][1..] == [c];
    assert List([b, c], q) == InQuotes(b, q) + ", " + List([c], q);
  }

  lemma {:induction false} MisreadText()
    ensures LEFT_PART + OR + RIGHT_PART == Spell(In("a", ["p", "x) or a in (y", "q"]), '"')
  {
    ListOfThree("p", "x) or a in (y", "q", '"');
  }

  /**
   The text spells one membership test, of which a value holds a parenthesis and a connective; the
   recogniser does not read it back.  It is the text of two tests around an `or`, and is read as
   those: it matches a value that the list does not hold.
   */
  lemma ParenthesisedOperandIsMisread()
    ensures Print(Pair(LEFT_PART, RIGHT_PART)) == Spell(In("a", ["p", "x) or a in (y", "q"]), '"')
    ensures MatchAtom(Print(Pair(LEFT_PART, RIGHT_PART))) == None
    ensures Matches(Print(Pair(LEFT_PART, RIGHT_PART)), map["a" := ", "])
    ensures !Holds(In("a", ["p", "x) or a in (y", "q"]), map["a" := ", "])
  {
    MisreadText();
    LeftIsPart();
    RightIsPart();
    PairMatches(LEFT_PART, "p", RIGHT_PART, ", ");
    PairRecognised(LEFT_PART, "p", RIGHT_PART, ", ");
    OnlyLeavesAreAtoms(Pair(LEFT_PART, RIGHT_PART));
    NotListed(", ");
  }

  // ------------------------------------------------------------- the only source of misreadings

  /** A text that does not begin with a parenthesis, is no atom, and holds neither connective or both. */
  lemma {:induction false} NotOneConnective(t: string, tuple: Tuple)
    requires t != "" && Trimmed(t) && t[0] != '(' && MatchAtom(t).None?
    requires Contains(t, OR) == Contains(t, AND)
    ensures !Matches(t, tuple)
  {
    TrimmedIsTrim(t);
  }

  /** A documented spelling that is not read back, with neither connective or both in it, is matched by no tuple. */
  lemma UnreadSpelling(a: Atom, q: char, tuple: Tuple)
    requires Spellable(a) && Quote(q) && !Enclosed(a)
    requires Contains(Spell(a, q), OR) == Contains(Spell(a, q), AND)
    ensures !Matches(Spell(a, q), tuple)
  {
    SpelledReadBack(a, q);
    SpellTrimmed(a, q);
    NotOneConnective(Spell(a, q), tuple);
  }

  /**
   A documented spelling that matches a tuple the test is false of has a value that closes its list,
   and holds exactly one of the connectives: no other spelling is misread.
   */
  lemma MisreadOnlyByConnective(a: Atom, q: char, tuple: Tuple)
    requires Spellable(a) && Quote(q)
    requires Matches(Spell(a, q), tuple) && !Holds(a, tuple)
    ensures !Enclosed(a) && Contains(Spell(a, q), OR) != Contains(Spell(a, q), AND)
  {
    if Enclosed(a) {
      SpelledReadBack(a, q);
      DocumentedLeaves(a, q);
      NeverMisread(Leaf(Spell(a, q)), tuple);
    } else if Contains(Spell(a, q), OR) == Contains(Spell(a, q), AND) {
      UnreadSpelling(a, q, tuple);
    }
  }
}
