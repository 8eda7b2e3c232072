/** The few functions of Go's strings package the parsers are written with. */
module Text {

  predicate HasPrefix(s: string, prefix: string) {
    |prefix| <= |s| && s[..|prefix|] == prefix
  }

  predicate OccursAt(s: string, sub: string, p: int) {
    0 <= p && p + |sub| <= |s| && s[p..p + |sub|] == sub
  }

  predicate Contains(s: string, sub: string) {
    exists p | 0 <= p <= |s| :: OccursAt(s, sub, p)
  }

  function IndexFrom(s: string, sub: string, i: nat): (r: int)
    requires i <= |s|
    ensures r == -1 || (i <= r && OccursAt(s, sub, r))
    ensures forall p | i <= p <= |s| && (r == -1 || p < r) :: !OccursAt(s, sub, p)
    decreases |s| - i
  {
    if OccursAt(s, sub, i) then i
    else if i == |s| then -1
    else IndexFrom(s, sub, i + 1)
  }

  /** strings.Index: the first occurrence, or -1. */
  function Index(s: string, sub: string): (r: int)
    ensures r == -1 || OccursAt(s, sub, r)
    ensures r == -1 <==> !Contains(s, sub)
    ensures forall p | 0 <= p < r :: !OccursAt(s, sub, p)
  {
    IndexFrom(s, sub, 0)
  }

  lemma IndexIs(s: string, sub: string, p: nat)
    requires OccursAt(s, sub, p) && forall q | 0 <= q < p :: !OccursAt(s, sub, q)
    ensures Index(s, sub) == p
  {
  }

  /** One wrong byte rules an occurrence out. */
  lemma NotAt(s: string, sub: string, p: nat, k: nat)
    requires k < |sub| && p + k < |s| && s[p + k] != sub[k]
    ensures !OccursAt(s, sub, p)
  {
    if p + |sub| <= |s| {
      assert s[p..p + |sub|][k] == s[p + k];
    }
  }

  /** A text is found at the first position if its first byte does not occur earlier. */
  lemma FoundAfter(before: string, sub: string, rest: string)
    requires sub != "" && sub[0] !in before
    ensures Index(before + sub + rest, sub) == |before|
  {
    var line := before + sub + rest;
    assert line[|before|..|before| + |sub|] == sub;
    forall q | 0 <= q < |before|
      ensures !OccursAt(line, sub, q)
    {
      assert line[q] == before[q] && before[q] in before;
      NotAt(line, sub, q, 0);
    }
    IndexIs(line, sub, |before|);
  }

  // ------------------------------------------------------------- white space

  /** ASCII white space, as unicode.IsSpace sees it. */
  predicate IsSpace(c: char) {
    c == ' ' || ('\t' <= c <= '\r')
  }

  function TrimLeft(s: string): (r: string)
    ensures r == "" || !IsSpace(r[0])
  {
    if s != "" && IsSpace(s[0]) then TrimLeft(s[1..]) else s
  }

  function TrimRight(s: string): (r: string)
    ensures r == "" || !IsSpace(r[|r| - 1])
    ensures r <= s
  {
    if s != "" && IsSpace(s[|s| - 1]) then TrimRight(s[..|s| - 1]) else s
  }

  function TrimSpace(s: string): string {
    TrimRight(TrimLeft(s))
  }

  /** Begins and ends with something other than white space, or is empty. */
  predicate Trimmed(s: string) {
    s == "" || (!IsSpace(s[0]) && !IsSpace(s[|s| - 1]))
  }

  predicate AllSpace(s: string) {
    forall c | c in s :: IsSpace(c)
  }

  lemma {:induction false} TrimLeftPadding(pad: string, s: string)
    requires AllSpace(pad) && (s == "" || !IsSpace(s[0]))
    ensures TrimLeft(pad + s) == s
  {
    if pad == "" {
      assert pad + s == s;
    } else {
      assert pad[0] in pad;
      TrimLeftPadding(pad[1..], s);
      assert (pad + s)[1..] == pad[1..] + s;
    }
  }

  lemma {:induction false} TrimRightPadding(s: string, pad: string)
    requires AllSpace(pad) && (s == "" || !IsSpace(s[|s| - 1]))
    ensures TrimRight(s + pad) == s
  {
    if pad == "" {
      assert s + pad == s;
    } else {
      assert pad[|pad| - 1] in pad;
      TrimRightPadding(s, pad[..|pad| - 1]);
      assert (s + pad)[..|s + pad| - 1] == s + pad[..|pad| - 1];
    }
  }

  /** Trimming removes exactly the padding around a trimmed text. */
  lemma TrimPadding(pad: string, s: string, pad': string)
    requires AllSpace(pad) && AllSpace(pad') && Trimmed(s)
    ensures TrimSpace(pad + s + pad') == s
  {
    if s == "" {
      assert pad + s + pad' == (pad + pad') + "";
      TrimLeftPadding(pad + pad', "");
    } else {
      assert pad + s + pad' == pad + (s + pad');
      TrimLeftPadding(pad, s + pad');
      TrimRightPadding(s, pad');
    }
  }

  /** The prefix of `s` up to its first white space. */
  function TokenEnd(s: string): (n: nat)
    ensures n <= |s| && (n < |s| ==> IsSpace(s[n]))
    ensures forall i | 0 <= i < n :: !IsSpace(s[i])
  {
    if s == "" || IsSpace(s[0]) then 0 else 1 + TokenEnd(s[1..])
  }

  lemma TrimLeftShorter(s: string)
    ensures |TrimLeft(s)| <= |s|
  {
  }

  /** strings.Fields */
  function Fields(s: string): seq<string>
    decreases |s|
  {
    var t := TrimLeft(s);
    if t == "" then []
    else
      TrimLeftShorter(s);
      [t[..TokenEnd(t)]] + Fields(t[TokenEnd(t)..])
  }

  predicate IsToken(s: string) {
    s != "" && forall c | c in s :: !IsSpace(c)
  }

  function JoinSpaced(tokens: seq<string>): string {
    if tokens == [] then "" else if |tokens| == 1 then tokens[0] else tokens[0] + " " + JoinSpaced(tokens[1..])
  }

  lemma {:induction false} TokenEndIs(token: string, rest: string)
    requires forall c | c in token :: !IsSpace(c)
    requires rest == "" || IsSpace(rest[0])
    ensures TokenEnd(token + rest) == |token|
  {
    if token == "" {
      assert token + rest == rest;
    } else {
      assert token[0] in token;
      TokenEndIs(token[1..], rest);
      assert (token + rest)[1..] == token[1..] + rest;
    }
  }

  /** Splitting undoes joining. */
  lemma {:induction false} FieldsOfJoin(pad: string, tokens: seq<string>)
    requires AllSpace(pad) && forall t | t in tokens :: IsToken(t)
    ensures Fields(pad + JoinSpaced(tokens)) == tokens
    decreases |tokens|
  {
    if tokens == [] {
      assert pad + "" == pad;
      TrimLeftPadding(pad, "");
    } else {
      var t := tokens[0];
      assert t in tokens && t[0] in t;
      var rest := if |tokens| == 1 then "" else " " + JoinSpaced(tokens[1..]);
      assert JoinSpaced(tokens) == t + rest;
      TrimLeftPadding(pad, t + rest);
      TokenEndIs(t, rest);
      assert (t + rest)[..|t|] == t && (t + rest)[|t|..] == rest;
      if |tokens| == 1 {
        assert Fields("") == [];
      } else {
        FieldsOfJoin(" ", tokens[1..]);
      }
      assert tokens == [t] + tokens[1..];
    }
  }
}
