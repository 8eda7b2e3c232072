/** Facts about slices that loops over sequences lean on. */
module Sequences {

  /** A prefix one longer is the prefix and the next element. */
  lemma PrefixStep<T>(s: seq<T>, i: nat)
    requires i < |s|
    ensures s[..i + 1] == s[..i] + [s[i]]
    ensures s[..i + 1][..i] == s[..i]
    ensures forall x :: x in s[..i + 1] <==> x in s[..i] || x == s[i]
  {
  }

  lemma WholePrefix<T>(s: seq<T>)
    ensures s[..|s|] == s
  {
  }

  /** Cutting a concatenation where it was joined. */
  lemma Cut<T>(a: seq<T>, b: seq<T>)
    ensures (a + b)[|a|..] == b
    ensures (a + b)[..|a|] == a
  {
  }

  /** The last element of a concatenation, and what precedes it. */
  lemma InitAppend<T>(a: seq<T>, b: seq<T>)
    requires b != []
    ensures (a + b)[..|a + b| - 1] == a + b[..|b| - 1]
    ensures (a + b)[|a + b| - 1] == b[|b| - 1]
  {
  }

  /** What follows the first element of a concatenation. */
  lemma TailAppend<T>(a: seq<T>, b: seq<T>)
    requires a != []
    ensures (a + b)[1..] == a[1..] + b
    ensures (a + b)[0] == a[0]
  {
  }

  lemma Assoc<T>(a: seq<T>, b: seq<T>, c: seq<T>)
    ensures a + b + c == a + (b + c)
  {
  }

  /** Slicing a suffix by offsets from its own start. */
  lemma DropDrop<T>(s: seq<T>, a: nat, b: nat)
    requires a + b <= |s|
    ensures s[a..][b..] == s[a + b..]
    ensures s[a..][..b] == s[a..a + b]
  {
  }

  /** A suffix is its first element and the shorter suffix. */
  lemma SuffixStep<T>(s: seq<T>, i: nat)
    requires i < |s|
    ensures s[i..] == [s[i]] + s[i + 1..]
    ensures i + 1 == |s| ==> s[i..] == [s[i]]
  {
  }

  lemma DropSlice<T>(s: seq<T>, a: nat, b: nat, c: nat)
    requires b <= c && a + c <= |s|
    ensures s[a..][b..c] == s[a + b..a + c]
  {
  }

  /** The elements that pass a test, in their order. */
  function Filter<T(!new)>(passes: T -> bool, s: seq<T>): (r: seq<T>)
    ensures forall x :: x in r <==> x in s && passes(x)
  {
    if s == [] then []
    else
      var last := |s| - 1;
      assert s == s[..last] + [s[last]];
      Filter(passes, s[..last]) + if passes(s[last]) then [s[last]] else []
  }

  lemma {:induction false} FilterAppend<T(!new)>(passes: T -> bool, a: seq<T>, b: seq<T>)
    ensures Filter(passes, a + b) == Filter(passes, a) + Filter(passes, b)
  {
    if b == [] {
      assert a + b == a;
    } else {
      InitAppend(a, b);
      FilterAppend(passes, a, b[..|b| - 1]);
    }
  }

  lemma FilterOne<T(!new)>(passes: T -> bool, x: T)
    ensures Filter(passes, [x]) == if passes(x) then [x] else []
  {
    assert [x][..0] == [];
  }

  lemma NothingFiltered<T(!new)>(passes: T -> bool)
    ensures Filter(passes, []) == []
  {
  }

  /** Only what the test says of the elements matters. */
  lemma {:induction false} FilterAlike<T(!new)>(p: T -> bool, q: T -> bool, s: seq<T>)
    requires forall x | x in s :: p(x) <==> q(x)
    ensures Filter(p, s) == Filter(q, s)
  {
    if s != [] {
      assert s[|s| - 1] in s;
      FilterAlike(p, q, s[..|s| - 1]);
    }
  }
}
