/**
 cmd/write-a/conditional.go: parsing branch conditions.  A condition becomes a variable with
 the values it matches or, for a chain over several variables, one constraint per variable.
 */
module Expressions {
  import opened AtomSyntax
  import opened Conditional
  import opened Options
  import opened Sequences
  import opened Text

  const OR := " or "
  const AND := " and "

  /** An empty variable name means the condition was not recognised. */
  datatype Parsed = Parsed(varname: string, arches: seq<string>)

  const REJECT := Parsed("", [])

  // ------------------------------------------------------------- parentheses

  /** The scan of stripOuterParens from `i` on: the parenthesis opened first closes last. */
  predicate Spans(s: string, i: nat, depth: int)
    requires i <= |s|
    decreases |s| - i
  {
    if i == |s| then depth == 0
    else if s[i] == '(' then Spans(s, i + 1, depth + 1)
    else if s[i] == ')' then depth >= 1 && (depth != 1 || i == |s| - 1) && Spans(s, i + 1, depth - 1)
    else Spans(s, i + 1, depth)
  }

  predicate Parenthesised(s: string) {
    |s| >= 2 && s[0] == '(' && s[|s| - 1] == ')'
  }

  lemma TrimShorter(s: string)
    ensures |TrimSpace(s)| <= |s|
  {
    TrimLeftShorter(s);
    assert TrimRight(TrimLeft(s)) <= TrimLeft(s);
  }

  function StripOuter(s: string): (r: string)
    ensures |r| <= |s|
  {
    if Parenthesised(s) && Spans(s, 0, 0) then
      TrimShorter(s[1..|s| - 1]);
      TrimSpace(s[1..|s| - 1])
    else s
  }

  /** stripOuterParens */
  method StripOuterParens(expr: string) returns (r: string)
    ensures r == StripOuter(expr)
  {
    if !Parenthesised(expr) {
      return expr;
    }
    var depth := 0;
    for i := 0 to |expr|
      invariant Spans(expr, 0, 0) == Spans(expr, i, depth)
    {
      if expr[i] == '(' {
        depth := depth + 1;
      } else if expr[i] == ')' {
        depth := depth - 1;
        if depth < 0 {
          return expr;
        }
        if depth == 0 && i != |expr| - 1 {
          return expr;
        }
      }
    }
    if depth != 0 {
      return expr;
    }
    r := TrimSpace(expr[1..|expr| - 1]);
  }

  /** The laxer scan parseMixedLHSAndChain has of its own: it never asks for balance. */
  predicate LooselySpans(s: string, i: nat, depth: int)
    requires i <= |s|
    decreases |s| - i
  {
    if i == |s| then true
    else if s[i] == '(' then LooselySpans(s, i + 1, depth + 1)
    else if s[i] == ')' then (depth != 1 || i == |s| - 1) && LooselySpans(s, i + 1, depth - 1)
    else LooselySpans(s, i + 1, depth)
  }

  function LooselyStripped(s: string): (r: string)
    ensures |r| <= |s|
  {
    if Parenthesised(s) && LooselySpans(s, 0, 0) then
      TrimShorter(s[1..|s| - 1]);
      TrimSpace(s[1..|s| - 1])
    else s
  }

  method LooselyStrip(expr: string) returns (r: string)
    ensures r == LooselyStripped(expr)
  {
    if !Parenthesised(expr) {
      return expr;
    }
    var depth := 0;
    for i := 0 to |expr|
      invariant LooselySpans(expr, 0, 0) == LooselySpans(expr, i, depth)
    {
      if expr[i] == '(' {
        depth := depth + 1;
      } else if expr[i] == ')' {
        depth := depth - 1;
        if depth == 0 && i != |expr| - 1 {
          return expr;
        }
      }
    }
    r := TrimSpace(expr[1..|expr| - 1]);
  }

  // ------------------------------------------------------------- strings.Split

  function Split(s: string, sep: string): (parts: seq<string>)
    requires sep != ""
    ensures parts != []
    ensures Contains(s, sep) ==> forall p | p in parts :: |p| < |s|
    ensures forall p | p in parts :: |p| <= |s|
    decreases |s|
  {
    var i := Index(s, sep);
    if i < 0 then [s] else [s[..i]] + Split(s[i + |sep|..], sep)
  }

  // ------------------------------------------------------------- value lists

  function Merge(a: seq<string>, b: seq<string>): (r: seq<string>)
    ensures forall x :: x in r <==> x in a || x in b
    decreases b
  {
    if b == [] then a
    else if b[0] in a then
      assert b == [b[0]] + b[1..];
      Merge(a, b[1..])
    else
      assert b == [b[0]] + b[1..];
      Merge(a + [b[0]], b[1..])
  }

  /** The second list adds, one after the other, what is not there yet. */
  lemma {:induction false} MergeAdds(a: seq<string>, b: seq<string>, x: string)
    ensures Merge(a, []) == a
    ensures Merge(a, b + [x]) == if x in Merge(a, b) then Merge(a, b) else Merge(a, b) + [x]
    decreases b
  {
    if b == [] {
      assert b + [x] == [x] && [x][1..] == [];
    } else {
      assert (b + [x])[1..] == b[1..] + [x];
      MergeAdds(if b[0] in a then a else a + [b[0]], b[1..], x);
    }
  }

  /** mergeArches */
  method MergeArches(a: seq<string>, b: seq<string>) returns (r: seq<string>)
    ensures r == Merge(a, b)
  {
    var seen := set x | x in a;
    r := a;
    for i := 0 to |b|
      invariant Merge(a, b) == Merge(r, b[i..])
      invariant forall x :: x in seen <==> x in r
    {
      DropDrop(b, i, 1);
      if b[i] !in seen {
        r := r + [b[i]];
        seen := seen + {b[i]};
      }
    }
  }

  function Intersect(a: seq<string>, b: seq<string>): (r: seq<string>)
    ensures forall x :: x in r <==> x in a && x in b
  {
    if a == [] then []
    else
      var last := |a| - 1;
      assert a == a[..last] + [a[last]];
      Intersect(a[..last], b) + if a[last] in b then [a[last]] else []
  }

  lemma {:induction false} IntersectIsFilter(a: seq<string>, b: seq<string>)
    ensures Intersect(a, b) == Filter(x => x in b, a)
  {
    if a != [] {
      IntersectIsFilter(a[..|a| - 1], b);
    }
  }

  /** intersectArches */
  method IntersectArches(a: seq<string>, b: seq<string>) returns (r: seq<string>)
    ensures r == Intersect(a, b)
  {
    var within := set x | x in b;
    r := [];
    for i := 0 to |a|
      invariant r == Intersect(a[..i], b)
    {
      PrefixStep(a, i);
      if a[i] in within {
        r := r + [a[i]];
      }
    }
    WholePrefix(a);
  }

  function Except(vs: seq<string>, x: string): (r: seq<string>)
    ensures forall y :: y in r <==> y in vs && y != x
  {
    if vs == [] then []
    else
      var last := |vs| - 1;
      assert vs == vs[..last] + [vs[last]];
      Except(vs[..last], x) + if vs[last] != x then [vs[last]] else []
  }

  predicate IsSupported(arch: string) {
    arch in SUPPORTED_ARCHES
  }

  /** What one atomic condition lowers to. */
  function Lower(a: Atom): Parsed {
    match a
    case Eq(x, v) => Parsed(x, if x == TARGET_ARCH && !IsSupported(v) then [] else [v])
    case Neq(x, v) => Parsed(x, if x != TARGET_ARCH then [] else Except(SUPPORTED_ARCHES, v))
    case In(x, vs) => Parsed(x, if x == TARGET_ARCH then Intersect(vs, SUPPORTED_ARCHES) else vs)
  }

  method LowerAtom(a: Atom) returns (p: Parsed)
    ensures p == Lower(a)
  {
    match a
    case Eq(x, v) =>
      p := Parsed(x, if x == TARGET_ARCH && !IsSupported(v) then [] else [v]);
    case Neq(x, v) =>
      var out := [];
      if x == TARGET_ARCH {
        for i := 0 to |SUPPORTED_ARCHES|
          invariant out == Except(SUPPORTED_ARCHES[..i], v)
        {
          PrefixStep(SUPPORTED_ARCHES, i);
          if SUPPORTED_ARCHES[i] != v {
            out := out + [SUPPORTED_ARCHES[i]];
          }
        }
        WholePrefix(SUPPORTED_ARCHES);
      }
      p := Parsed(x, out);
    case In(x, vs) =>
      var out := vs;
      if x == TARGET_ARCH {
        out := IntersectArches(vs, SUPPORTED_ARCHES);
      }
      p := Parsed(x, out);
  }

  // ------------------------------------------------------------- the parser

  function Combine(intersect: bool, first: bool, out: seq<string>, vs: seq<string>): seq<string> {
    if !intersect then Merge(out, vs) else if first then vs else Intersect(out, vs)
  }

  function ParseArch(expr: string): Parsed
    decreases |expr|
  {
    TrimShorter(expr);
    var s := StripOuter(TrimSpace(expr));
    if Contains(s, OR) && !Contains(s, AND) then Chain(Split(s, OR), |s|, false, "", [], true)
    else if Contains(s, AND) && !Contains(s, OR) then Chain(Split(s, AND), |s|, true, "", [], true)
    else if MatchAtom(s).Some? then Lower(MatchAtom(s).value)
    else REJECT
  }

  /** The rest of a chain, after parts that share `lhs` and together allow `out`. */
  function Chain(parts: seq<string>, limit: nat, intersect: bool, lhs: string, out: seq<string>, first: bool): Parsed
    requires forall p | p in parts :: |p| < limit
    decreases limit, |parts|
  {
    if parts == [] then Parsed(lhs, out)
    else
      TrimShorter(parts[0]);
      var p := ParseArch(TrimSpace(parts[0]));
      if p.varname == "" || (lhs != "" && lhs != p.varname) then REJECT
      else Chain(parts[1..], limit, intersect, p.varname, Combine(intersect, first, out, p.arches), false)
  }

  /** parseArchExpression */
  method ParseArchExpression(expr: string) returns (p: Parsed)
    ensures p == ParseArch(expr)
    decreases |expr|
  {
    TrimShorter(expr);
    var s := StripOuterParens(TrimSpace(expr));
    if Index(s, OR) >= 0 && Index(s, AND) < 0 {
      p := ParseArchChain(Split(s, OR), |s|, false);
      return;
    }
    if Index(s, AND) >= 0 && Index(s, OR) < 0 {
      p := ParseArchChain(Split(s, AND), |s|, true);
      return;
    }
    var a := MatchAtom(s);
    if a.Some? {
      p := LowerAtom(a.value);
    } else {
      p := REJECT;
    }
  }

  /** parseArchChain */
  method ParseArchChain(parts: seq<string>, ghost limit: nat, intersect: bool) returns (r: Parsed)
    requires forall p | p in parts :: |p| < limit
    ensures r == Chain(parts, limit, intersect, "", [], true)
    decreases limit, |parts|
  {
    var lhs, out, first := "", [], true;
    for i := 0 to |parts|
      invariant Chain(parts, limit, intersect, "", [], true) == Chain(parts[i..], limit, intersect, lhs, out, first)
    {
      DropDrop(parts, i, 1);
      assert parts[i] in parts;
      TrimShorter(parts[i]);
      var p := ParseArchExpression(TrimSpace(parts[i]));
      if p.varname == "" {
        return REJECT;
      }
      if lhs == "" {
        lhs := p.varname;
      } else if lhs != p.varname {
        return REJECT;
      }
      if !intersect {
        out := MergeArches(out, p.arches);
      } else if first {
        out := p.arches;
      } else {
        out := IntersectArches(out, p.arches);
      }
      first := false;
    }
    r := Parsed(lhs, out);
  }

  // ------------------------------------------------------------- chains over several variables

  /** Earlier parts in front of the later ones, if those are recognised. */
  function After(ps: seq<Parsed>, rest: Option<seq<Parsed>>): Option<seq<Parsed>> {
    if rest.None? then None else Some(ps + rest.value)
  }

  /** The parts as parsed, if every one of them is recognised. */
  function ParseAll(parts: seq<string>): Option<seq<Parsed>> {
    if parts == [] then Some([])
    else
      var p := ParseArch(TrimSpace(parts[0]));
      if p.varname == "" then None else After([p], ParseAll(parts[1..]))
  }

  function MixedParts(expr: string): Option<seq<Parsed>> {
    var s := LooselyStripped(TrimSpace(expr));
    if !Contains(s, AND) || Contains(s, OR) then None else ParseAll(Split(s, AND))
  }

  predicate Allows(p: Parsed, tuple: Tuple) {
    p.varname in tuple && tuple[p.varname] in p.arches
  }

  predicate AllAllow(ps: seq<Parsed>, tuple: Tuple) {
    forall p | p in ps :: Allows(p, tuple)
  }

  /** One constraint per variable, in the order the variables first occur. */
  ghost predicate Grouped(ps: seq<Parsed>, byVar: map<string, seq<string>>, order: seq<string>) {
    && (forall v :: v in byVar <==> v in order)
    && (forall v :: v in order <==> exists p | p in ps :: p.varname == v)
    && (forall i, j | 0 <= i < j < |order| :: order[i] != order[j])
    && (forall v, x | v in byVar :: x in byVar[v] <==> forall p | p in ps && p.varname == v :: x in p.arches)
  }

  method GroupPart(p: Parsed, byVar: map<string, seq<string>>, order: seq<string>, ghost ps: seq<Parsed>)
    returns (byVar': map<string, seq<string>>, order': seq<string>)
    requires Grouped(ps, byVar, order)
    ensures Grouped(ps + [p], byVar', order')
  {
    ghost var more := ps + [p];
    assert forall q :: q in more <==> q in ps || q == p;
    var v := p.varname;
    if v !in byVar {
      order', byVar' := order + [v], byVar[v := p.arches];
      assert forall q | q in ps :: q.varname != v;
    } else {
      var both := IntersectArches(byVar[v], p.arches);
      order', byVar' := order, byVar[v := both];
    }
  }

  /** The constraints say together what the parts say together. */
  lemma {:induction false} GroupedMeaning(ps: seq<Parsed>, byVar: map<string, seq<string>>, order: seq<string>,
                                         cs: seq<Constraint>, tuple: Tuple)
    requires Grouped(ps, byVar, order)
    requires |cs| == |order|
    requires forall i | 0 <= i < |cs| :: order[i] in byVar && cs[i] == Constraint(order[i], byVar[order[i]])
    ensures Satisfied(cs, tuple) <==> AllAllow(ps, tuple)
  {
    if Satisfied(cs, tuple) {
      forall p | p in ps
        ensures Allows(p, tuple)
      {
        assert p.varname in order;
        var i :| 0 <= i < |order| && order[i] == p.varname;
        assert cs[i] in cs;
      }
    }
    if AllAllow(ps, tuple) {
      forall c | c in cs
        ensures c.varname in tuple && tuple[c.varname] in c.values
      {
        assert c.varname in order;
        var p :| p in ps && p.varname == c.varname;
        assert Allows(p, tuple);
      }
    }
  }

  lemma {:induction false} AfterEnds(rest: Option<seq<Parsed>>, ps: seq<Parsed>)
    ensures After([], rest) == rest && After(ps, Some([])) == Some(ps)
  {
    if rest.Some? {
      assert [] + rest.value == rest.value;
    }
    assert ps + [] == ps;
  }

  lemma {:induction false} AfterMore(ps: seq<Parsed>, p: Parsed, rest: Option<seq<Parsed>>)
    ensures After(ps, After([p], rest)) == After(ps + [p], rest)
  {
    if rest.Some? {
      Assoc(ps, [p], rest.value);
    }
  }

  /** The loop of parseMixedLHSAndChain; it stops at a part that is not recognised. */
  method GroupParts(parts: seq<string>)
    returns (ok: bool, byVar: map<string, seq<string>>, order: seq<string>, ghost ps: seq<Parsed>)
    ensures ok <==> ParseAll(parts).Some?
    ensures ok ==> ParseAll(parts) == Some(ps) && |ps| == |parts| && Grouped(ps, byVar, order)
  {
    byVar, order, ps := map[], [], [];
    AfterEnds(ParseAll(parts), ps);
    for i := 0 to |parts|
      invariant ParseAll(parts) == After(ps, ParseAll(parts[i..])) && |ps| == i
      invariant Grouped(ps, byVar, order)
    {
      DropDrop(parts, i, 1);
      var p := ParseArchExpression(TrimSpace(parts[i]));
      if p.varname == "" {
        ok := false;
        return;
      }
      AfterMore(ps, p, ParseAll(parts[i + 1..]));
      byVar, order := GroupPart(p, byVar, order, ps);
      ps := ps + [p];
    }
    AfterEnds(ParseAll(parts), ps);
    ok := true;
  }

  method ListConstraints(byVar: map<string, seq<string>>, order: seq<string>) returns (cs: seq<Constraint>)
    requires forall v | v in order :: v in byVar
    ensures |cs| == |order|
    ensures forall i | 0 <= i < |cs| :: order[i] in byVar && cs[i] == Constraint(order[i], byVar[order[i]])
  {
    cs := [];
    for i := 0 to |order|
      invariant |cs| == i
      invariant forall k | 0 <= k < i :: order[k] in byVar && cs[k] == Constraint(order[k], byVar[order[k]])
    {
      cs := cs + [Constraint(order[i], byVar[order[i]])];
    }
  }

  /** parseMixedLHSAndChain */
  method ParseMixedLHSAndChain(expr: string) returns (constraints: seq<Constraint>)
    ensures MixedParts(expr).None? ==> constraints == []
    ensures MixedParts(expr).Some? ==> constraints != []
    ensures MixedParts(expr).Some? ==>
      forall tuple :: Satisfied(constraints, tuple) <==> AllAllow(MixedParts(expr).value, tuple)
    ensures forall i, j | 0 <= i < j < |constraints| :: constraints[i].varname != constraints[j].varname
  {
    var s := LooselyStrip(TrimSpace(expr));
    if Index(s, AND) < 0 || Index(s, OR) >= 0 {
      return [];
    }
    var ok, byVar, order, ps := GroupParts(Split(s, AND));
    if !ok {
      return [];
    }
    constraints := ListConstraints(byVar, order);
    assert ps[0] in ps && ps[0].varname in order;
    forall tuple
      ensures Satisfied(constraints, tuple) <==> AllAllow(ps, tuple)
    {
      GroupedMeaning(ps, byVar, order, constraints, tuple);
    }
  }

  // ------------------------------------------------------------- branches

  /** branchMatchesTuple */
  method BranchMatchesTuple(b: Branch, tuple: Tuple) returns (fires: bool)
    ensures fires <==> BranchFires(b, tuple)
  {
    if |b.constraints| > 0 {
      for i := 0 to |b.constraints|
        invariant Satisfied(b.constraints[..i], tuple)
      {
        PrefixStep(b.constraints, i);
        var c := b.constraints[i];
        assert c in b.constraints;
        if c.varname !in tuple || tuple[c.varname] !in c.values {
          return false;
        }
      }
      WholePrefix(b.constraints);
      return true;
    }
    fires := b.varname != "" && b.varname in tuple && tuple[b.varname] in b.arches;
  }

  /** What a condition matches once it has been through the parsers. */
  predicate Matches(expr: string, tuple: Tuple) {
    var p := ParseArch(expr);
    if p.varname != "" then Allows(p, tuple)
    else MixedParts(expr).Some? && AllAllow(MixedParts(expr).value, tuple)
  }

  /** One branch of a (?): block, as extractConditionalsFromVariables builds it. */
  method MakeBranch(expr: string, overrides: map<string, string>) returns (b: Branch)
    ensures b.overrides == overrides
    ensures b.varname != "" ==> b.constraints == []
    ensures forall tuple :: BranchFires(b, tuple) <==> Matches(expr, tuple)
  {
    var p := ParseArchExpression(expr);
    var constraints := [];
    if p.varname == "" {
      constraints := ParseMixedLHSAndChain(expr);
    }
    b := Branch(p.varname, p.arches, constraints, overrides);
  }
}
