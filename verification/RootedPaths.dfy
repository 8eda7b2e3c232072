/** Go's path/filepath on rooted POSIX paths: Clean, Join, Dir and Rel, segment by segment. */
module RootedPaths {
  import Paths
  import opened Sequences
  import opened Text

  // ------------------------------------------------------------- segments

  /** Position of the first slash, or the length of the text. */
  function SlashAt(s: string): (n: nat)
    ensures n <= |s| && (n < |s| ==> s[n] == '/') && forall i | 0 <= i < n :: s[i] != '/'
  {
    if s == "" || s[0] == '/' then 0 else 1 + SlashAt(s[1..])
  }

  /** strings.Split(s, "/") */
  function Parts(s: string): (ps: seq<string>)
    ensures ps != [] && forall p | p in ps :: '/' !in p
    decreases |s|
  {
    var n := SlashAt(s);
    if n == |s| then [s] else [s[..n]] + Parts(s[n + 1..])
  }

  /** strings.Join(ps, "/") */
  function Slashed(ps: seq<string>): string {
    if ps == [] then "" else if |ps| == 1 then ps[0] else ps[0] + "/" + Slashed(ps[1..])
  }

  /** A segment that names something in its directory. */
  predicate Normal(part: string) {
    part != "" && part != "." && part != ".." && '/' !in part
  }

  predicate AllNormal(parts: seq<string>) {
    forall part | part in parts :: Normal(part)
  }

  /** Following one segment from a rooted directory. */
  function Enter(dir: seq<string>, part: string): seq<string> {
    if part == "" || part == "." then dir
    else if part == ".." then if dir == [] then [] else dir[..|dir| - 1]
    else dir + [part]
  }

  function Follow(dir: seq<string>, parts: seq<string>): seq<string>
    decreases parts
  {
    if parts == [] then dir else Follow(Enter(dir, parts[0]), parts[1..])
  }

  /** What a rooted path leads to. */
  function Segments(p: string): seq<string> {
    Follow([], Parts(p))
  }

  function Rooted(segments: seq<string>): string {
    "/" + Slashed(segments)
  }

  /** filepath.Join of a rooted directory and a name: cleaned. */
  function Join(dir: string, name: string): string {
    Rooted(Segments(dir + "/" + name))
  }

  function UpToSlash(p: string): string {
    if p == "" || p[|p| - 1] == '/' then p else UpToSlash(p[..|p| - 1])
  }

  /** filepath.Dir of a rooted path. */
  function Dir(p: string): string {
    Rooted(Segments(UpToSlash(p)))
  }

  function Common(a: seq<string>, b: seq<string>): (k: nat)
    ensures k <= |a| && k <= |b| && a[..k] == b[..k]
    ensures k < |a| && k < |b| ==> a[k] != b[k]
  {
    if a == [] || b == [] || a[0] != b[0] then 0
    else
      var k := Common(a[1..], b[1..]);
      assert a == [a[0]] + a[1..] && b == [b[0]] + b[1..];
      1 + k
  }

  /** filepath.Rel of two rooted paths. */
  function Rel(base: string, target: string): string {
    var a, b := Segments(base), Segments(target);
    var k := Common(a, b);
    if a == b then "." else Slashed(seq(|a| - k, i => "..") + b[k..])
  }

  // ------------------------------------------------------------- splitting and joining

  lemma SlashedCons(head: string, ps: seq<string>)
    requires ps != []
    ensures Slashed([head] + ps) == head + "/" + Slashed(ps)
  {
    assert ([head] + ps)[1..] == ps;
  }

  lemma {:induction false} SlashedParts(s: string)
    ensures Slashed(Parts(s)) == s
    decreases |s|
  {
    var n := SlashAt(s);
    if n < |s| {
      var head, tail := s[..n], s[n + 1..];
      SlashedParts(tail);
      SlashedCons(head, Parts(tail));
      assert s == head + "/" + tail;
    }
  }

  lemma {:induction false} SlashAtIs(a: string, rest: string)
    requires '/' !in a && (rest == "" || rest[0] == '/')
    ensures SlashAt(a + rest) == |a|
  {
    if a == "" {
      assert a + rest == rest;
    } else {
      assert a[0] in a;
      SlashAtIs(a[1..], rest);
      assert (a + rest)[1..] == a[1..] + rest;
    }
  }

  lemma PartsFirst(a: string, b: string)
    requires '/' !in a
    ensures Parts(a + "/" + b) == [a] + Parts(b)
  {
    Assoc(a, "/", b);
    SlashAtIs(a, "/" + b);
    Cut(a + "/", b);
    assert (a + "/" + b)[..|a|] == a;
  }

  lemma PartsOfOne(a: string)
    requires '/' !in a
    ensures Parts(a) == [a]
  {
    assert a + "" == a;
    SlashAtIs(a, "");
  }

  lemma {:induction false} PartsSlashed(ps: seq<string>)
    requires ps != [] && forall p | p in ps :: '/' !in p
    ensures Parts(Slashed(ps)) == ps
  {
    assert ps == [ps[0]] + ps[1..];
    assert ps[0] in ps;
    if |ps| == 1 {
      PartsOfOne(ps[0]);
    } else {
      PartsSlashed(ps[1..]);
      PartsFirst(ps[0], Slashed(ps[1..]));
    }
  }

  lemma {:induction false} PartsAppend(a: string, b: string)
    ensures Parts(a + "/" + b) == Parts(a) + Parts(b)
    decreases |a|
  {
    var n := SlashAt(a);
    if n == |a| {
      assert '/' !in a;
      PartsFirst(a, b);
    } else {
      var head, tail := a[..n], a[n + 1..];
      assert a == head + "/" + tail;
      PartsAppend(tail, b);
      assert a + "/" + b == head + "/" + (tail + "/" + b);
      PartsFirst(head, tail + "/" + b);
      PartsFirst(head, tail);
      Assoc([head], Parts(tail), Parts(b));
    }
  }

  // ------------------------------------------------------------- following segments

  lemma {:induction false} FollowAppend(dir: seq<string>, a: seq<string>, b: seq<string>)
    ensures Follow(dir, a + b) == Follow(Follow(dir, a), b)
    decreases a
  {
    if a == [] {
      assert a + b == b;
    } else {
      FollowAppend(Enter(dir, a[0]), a[1..], b);
      TailAppend(a, b);
    }
  }

  lemma {:induction false} FollowNormal(dir: seq<string>, parts: seq<string>)
    requires AllNormal(parts)
    ensures Follow(dir, parts) == dir + parts
    decreases parts
  {
    if parts != [] {
      assert parts == [parts[0]] + parts[1..];
      assert parts[0] in parts;
      FollowNormal(dir + [parts[0]], parts[1..]);
      Assoc(dir, [parts[0]], parts[1..]);
    } else {
      assert dir + parts == dir;
    }
  }

  lemma {:induction false} FollowStaysNormal(dir: seq<string>, parts: seq<string>)
    requires AllNormal(dir) && forall p | p in parts :: '/' !in p
    ensures AllNormal(Follow(dir, parts))
    decreases parts
  {
    if parts != [] {
      assert parts[0] in parts;
      FollowStaysNormal(Enter(dir, parts[0]), parts[1..]);
    }
  }

  lemma {:induction false} FollowLast(dir: seq<string>, parts: seq<string>)
    requires parts != [] && Normal(parts[|parts| - 1])
    ensures var r := Follow(dir, parts);
      r != [] && r[|r| - 1] == parts[|parts| - 1]
    decreases parts
  {
    if |parts| > 1 {
      FollowLast(Enter(dir, parts[0]), parts[1..]);
    } else {
      assert parts[1..] == [];
    }
  }

  lemma SegmentsNormal(p: string)
    ensures AllNormal(Segments(p))
  {
    FollowStaysNormal([], Parts(p));
  }

  /** A cleaned path leads where it was built from. */
  lemma SegmentsOfRooted(segments: seq<string>)
    requires AllNormal(segments)
    ensures Segments(Rooted(segments)) == segments
  {
    PartsFirst("", Slashed(segments));
    assert "" + "/" + Slashed(segments) == Rooted(segments);
    FollowAppend([], [""], Parts(Slashed(segments)));
    assert Follow([], [""]) == [] by {
      assert [""][1..] == [];
    }
    if segments == [] {
      PartsOfOne("");
    } else {
      PartsSlashed(segments);
      FollowNormal([], segments);
      assert [] + segments == segments;
    }
  }

  lemma SegmentsOfStep(dir: string, part: string)
    requires '/' !in part
    ensures Segments(dir + "/" + part) == Enter(Segments(dir), part)
  {
    PartsAppend(dir, part);
    PartsOfOne(part);
    FollowAppend([], Parts(dir), [part]);
    assert [part][1..] == [];
  }

  /** Dots undo the segment before them. */
  lemma DotsUndo(dir: string, part: string)
    requires Normal(part)
    ensures Segments(dir + "/" + part + "/" + "..") == Segments(dir)
  {
    hide Segments;
    SegmentsOfStep(dir, part);
    SegmentsOfStep(dir + "/" + part, "..");
    assert (Segments(dir) + [part])[..|Segments(dir)|] == Segments(dir);
  }

  /** A joined path, segment by segment. */
  lemma JoinIs(dir: string, name: string)
    ensures Join(dir, name) == Rooted(Follow(Segments(dir), Parts(name)))
  {
    PartsAppend(dir, name);
    FollowAppend([], Parts(dir), Parts(name));
  }

  /** Joining follows the name's segments from the directory. */
  lemma SegmentsOfJoin(dir: string, name: string)
    ensures Segments(Join(dir, name)) == Follow(Segments(dir), Parts(name))
  {
    PartsAppend(dir, name);
    FollowAppend([], Parts(dir), Parts(name));
    SegmentsNormal(dir + "/" + name);
    SegmentsOfRooted(Segments(dir + "/" + name));
  }

  /** A path that is not below the base is written with leading dots. */
  lemma RelOutside(base: string, target: string)
    requires !(Segments(base) <= Segments(target))
    ensures HasPrefix(Rel(base, target), "..")
  {
    var a, b := Segments(base), Segments(target);
    var k := Common(a, b);
    assert k == |a| ==> a <= b;
    var ps := seq(|a| - k, i => "..") + b[k..];
    assert ps[0] == "..";
    assert Slashed(ps)[..2] == "..";
  }

  /** A path below the base is written by what follows the base. */
  lemma RelInside(base: string, target: string)
    requires Segments(base) <= Segments(target) && Segments(base) != Segments(target)
    ensures Rel(base, target) == Slashed(Segments(target)[|Segments(base)|..])
  {
    var a, b := Segments(base), Segments(target);
    var k := Common(a, b);
    assert k == |a| by {
      assert a == b[..|a|];
    }
    assert seq(|a| - k, i => "..") + b[k..] == b[|a|..];
  }

  lemma {:induction false} SlashedLast(ps: seq<string>)
    requires |ps| > 1
    ensures Slashed(ps) == Slashed(ps[..|ps| - 1]) + "/" + ps[|ps| - 1]
  {
    var rest, n := ps[1..], |ps| - 1;
    if |ps| > 2 {
      SlashedLast(rest);
      assert rest[..|rest| - 1] == ps[..n][1..];
      Assoc(ps[0] + "/", Slashed(rest[..|rest| - 1]), "/" + ps[n]);
      Assoc(Slashed(rest[..|rest| - 1]), "/", ps[n]);
    }
  }

  /** filepath.Base of a cleaned path is its last segment. */
  lemma BaseOfRooted(segments: seq<string>)
    requires segments != [] && AllNormal(segments)
    ensures Paths.Base(Rooted(segments)) == segments[|segments| - 1]
  {
    var last := segments[|segments| - 1];
    assert last in segments;
    if |segments| == 1 {
      Paths.BaseOfFile("", last);
      assert "" + "/" + last == Rooted(segments);
    } else {
      SlashedLast(segments);
      var dir := "/" + Slashed(segments[..|segments| - 1]);
      assert Rooted(segments) == dir + "/" + last;
      Paths.BaseOfFile(dir, last);
    }
  }
}
