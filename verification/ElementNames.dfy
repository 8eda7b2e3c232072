/**
 cmd/write-a/main.go: which file a dependency reference leads to, what name that file is keyed by,
 and for which references the two agree.
 */
module ElementNames {
  import Paths
  import opened RootedPaths
  import opened Sequences
  import opened Text

  const BST: string := ".bst"

  predicate HasSuffix(s: string, suffix: string) {
    |suffix| <= |s| && s[|s| - |suffix|..] == suffix
  }

  /** strings.TrimSuffix(fn, ".bst") */
  function TrimBst(fn: string): string {
    if HasSuffix(fn, BST) then fn[..|fn| - |BST|] else fn
  }

  function WithBst(fn: string): string {
    if HasSuffix(fn, BST) then fn else fn + BST
  }

  /** The file a reference made in `cur` leads to: below the element root, or beside `cur` without a project. */
  function Resolve(elementRoot: string, cur: string, fn: string): string {
    Join(if elementRoot != "" then elementRoot else Dir(cur), WithBst(fn))
  }

  datatype KeyResult = Key(name: string) | Outside

  /** The element name a file is keyed by. */
  function KeyOf(elementRoot: string, p: string): KeyResult {
    if elementRoot == "" then Key(TrimBst(Paths.Base(p)))
    else if HasPrefix(Rel(elementRoot, p), "..") then Outside
    else Key(TrimBst(Rel(elementRoot, p)))
  }

  /**
   A reference by plain segments: no empty one, no `.` or `..`, and in a project not even a first
   one that begins with two dots; without a project a single segment.
   */
  predicate CleanReference(elementRoot: string, fn: string) {
    if elementRoot == "" then '/' !in fn
    else AllNormal(Parts(WithBst(fn))) && !HasPrefix(WithBst(fn), "..")
  }

  // ------------------------------------------------------------- suffixes

  lemma WithBstEnds(fn: string)
    ensures HasSuffix(WithBst(fn), BST) && TrimBst(WithBst(fn)) == TrimBst(fn)
    ensures '/' in WithBst(fn) <==> '/' in fn
  {
    if !HasSuffix(fn, BST) {
      assert (fn + BST)[|fn|..] == BST;
      assert (fn + BST)[..|fn|] == fn;
    }
  }

  /** Two names with the suffix are equal when they are equal without it. */
  lemma TrimInjective(a: string, b: string)
    requires HasSuffix(a, BST) && HasSuffix(b, BST) && TrimBst(a) == TrimBst(b)
    ensures a == b
  {
    assert a == TrimBst(a) + BST && b == TrimBst(b) + BST;
  }

  lemma TrimSelf(a: string)
    requires HasSuffix(a, BST)
    ensures a == TrimBst(a) + BST
  {
  }

  /** The last segment of a reference carries its suffix. */
  lemma {:induction false} LastPart(s: string)
    requires HasSuffix(s, BST)
    ensures var ps := Parts(s);
      Normal(ps[|ps| - 1]) && HasSuffix(ps[|ps| - 1], BST)
    decreases |s|
  {
    var n := SlashAt(s);
    if n < |s| {
      var tail := s[n + 1..];
      assert s[|s| - 4..] == BST;
      assert n < |s| - 4 by {
        assert forall i | |s| - 4 <= i < |s| :: s[i] == BST[i - (|s| - 4)];
      }
      assert tail[|tail| - 4..] == s[|s| - 4..];
      LastPart(tail);
      assert ([s[..n]] + Parts(tail))[|Parts(tail)|] == Parts(tail)[|Parts(tail)| - 1];
    } else {
      assert '/' !in s;
      assert s[|s| - 3] == 'b' by {
        assert s[|s| - 4..][1] == 'b';
      }
    }
  }

  // ------------------------------------------------------------- names and references

  /** Plain segments below the root: the relative path is the name. */
  lemma CleanInside(elementRoot: string, p: string, name: string)
    requires AllNormal(Parts(name)) && Segments(p) == Follow(Segments(elementRoot), Parts(name))
    ensures Rel(elementRoot, p) == name
  {
    var base, parts := Segments(elementRoot), Parts(name);
    FollowNormal(base, parts);
    Cut(base, parts);
    assert base <= base + parts && |base| < |base + parts|;
    RelInside(elementRoot, p);
    SlashedParts(name);
  }

  lemma RestNormal(base: seq<string>, segs: seq<string>, p: string)
    requires segs == Segments(p) && base <= segs && base != segs
    ensures segs[|base|..] != [] && AllNormal(segs[|base|..])
    ensures segs[|base|..][|segs| - |base| - 1] == segs[|segs| - 1]
  {
    SegmentsNormal(p);
  }

  lemma {:induction false} AfterSlashFree(p: string)
    ensures '/' !in Paths.AfterSlash(p)
    ensures Paths.AfterSlash(p) == "" <==> p == "" || p[|p| - 1] == '/'
  {
    if p != "" && p[|p| - 1] != '/' {
      AfterSlashFree(p[..|p| - 1]);
    }
  }

  lemma {:induction false} OnlySlashes(p: string)
    requires forall i | 0 <= i < |p| :: p[i] == '/'
    ensures Segments(p) == []
  {
    PartsOfOne("");
    assert Parts("")[1..] == [];
    if p != "" {
      OnlySlashes(p[1..]);
      PartsFirst("", p[1..]);
      assert "" + "/" + p[1..] == p;
      FollowAppend([], [""], Parts(p[1..]));
      assert [""][1..] == [] && Follow([], [""]) == [];
    }
  }

  lemma {:induction false} StrippedOrSlashes(p: string)
    ensures var s := Paths.StripSlashes(p);
      (s != "" && s[|s| - 1] != '/') || (s == "" && forall i | 0 <= i < |p| :: p[i] == '/')
  {
    if p != "" && p[|p| - 1] == '/' {
      StrippedOrSlashes(p[..|p| - 1]);
      assert forall i | 0 <= i < |p| - 1 :: p[..|p| - 1][i] == p[i];
    }
  }

  /** The base name of anything but the root is one segment. */
  lemma BaseIsOneSegment(p: string)
    requires Segments(p) != []
    ensures '/' !in Paths.Base(p)
  {
    StrippedOrSlashes(p);
    AfterSlashFree(Paths.StripSlashes(p));
    if Paths.StripSlashes(p) == "" {
      OnlySlashes(p);
    }
  }

  lemma RootIsEmpty()
    ensures Segments("") == []
  {
    OnlySlashes("");
  }

  lemma SuffixedSegment(segment: string)
    requires Normal(segment)
    ensures Parts(segment + BST) == [segment + BST] && Normal(segment + BST)
  {
    assert '/' !in segment + BST;
    PartsOfOne(segment + BST);
  }

  lemma InitNormal(segments: seq<string>)
    requires segments != [] && AllNormal(segments)
    ensures AllNormal(segments[..|segments| - 1])
  {
  }

  lemma SuffixedParts(segments: seq<string>)
    requires segments != [] && AllNormal(segments)
    ensures AllNormal(Parts(Slashed(segments) + BST))
  {
    var n := |segments| - 1;
    assert segments[n] in segments;
    SuffixedSegment(segments[n]);
    if n > 0 {
      SlashedLast(segments);
      Assoc(Slashed(segments[..n]) + "/", segments[n], BST);
      InitNormal(segments);
      PartsSlashed(segments[..n]);
      PartsAppend(Slashed(segments[..n]), segments[n] + BST);
    }
  }

  lemma NoDots(rel: string, rest: seq<string>)
    requires rest != [] && AllNormal(rest) && rel == Slashed(rest) && !HasPrefix(rel, "..")
    ensures !HasPrefix(rel + BST, "..")
  {
    assert rest[0] in rest && rel[0] == rest[0][0];
    if |rel| >= 2 {
      assert (rel + BST)[..2] == rel[..2];
    } else {
      assert |rest| == 1 && rel == rest[0] && rel[0] != '.';
      assert (rel + BST)[0] == rel[0];
    }
  }

  /** A file below the root is named by the clean reference to it. */
  lemma BelowIsClean(elementRoot: string, p: string, fn: string)
    requires elementRoot != "" && Segments(elementRoot) <= Segments(p) && Segments(elementRoot) != Segments(p)
    requires !HasPrefix(Rel(elementRoot, p), "..") && TrimBst(Rel(elementRoot, p)) == TrimBst(fn)
    ensures CleanReference(elementRoot, fn)
  {
    var rel, rest := Rel(elementRoot, p), Segments(p)[|Segments(elementRoot)|..];
    RelInside(elementRoot, p);
    RestNormal(Segments(elementRoot), Segments(p), p);
    WithBstEnds(fn);
    PartsSlashed(rest);
    if HasSuffix(rel, BST) {
      TrimInjective(rel, WithBst(fn));
    } else {
      TrimSelf(WithBst(fn));
      assert WithBst(fn) == rel + BST;
      SuffixedParts(rest);
      NoDots(rel, rest);
    }
  }

  lemma RootItself(elementRoot: string, p: string, name: string)
    requires name == "." + BST && Segments(p) == Follow(Segments(elementRoot), Parts(name))
    ensures Segments(p) != Segments(elementRoot)
  {
    PartsOfOne(name);
    FollowNormal(Segments(elementRoot), [name]);
  }

  lemma KeyedIsClean(elementRoot: string, p: string, fn: string)
    requires elementRoot != "" && Segments(p) == Follow(Segments(elementRoot), Parts(WithBst(fn)))
    requires KeyOf(elementRoot, p) == Key(TrimBst(fn))
    ensures CleanReference(elementRoot, fn)
  {
    WithBstEnds(fn);
    TrimSelf(WithBst(fn));
    if TrimBst(fn) == "." {
      RootItself(elementRoot, p, WithBst(fn));
    }
    if !(Segments(elementRoot) <= Segments(p)) {
      RelOutside(elementRoot, p);
    } else if Segments(elementRoot) != Segments(p) {
      BelowIsClean(elementRoot, p, fn);
    }
  }

  /** In a project: the key of the file is the reference itself exactly for clean references. */
  lemma ProjectReference(elementRoot: string, cur: string, fn: string)
    requires elementRoot != ""
    ensures KeyOf(elementRoot, Resolve(elementRoot, cur, fn)) == Key(TrimBst(fn))
      <==> CleanReference(elementRoot, fn)
  {
    var name, p := WithBst(fn), Resolve(elementRoot, cur, fn);
    WithBstEnds(fn);
    SegmentsOfJoin(elementRoot, name);
    if CleanReference(elementRoot, fn) {
      CleanInside(elementRoot, p, name);
    } else if KeyOf(elementRoot, p) == Key(TrimBst(fn)) {
      KeyedIsClean(elementRoot, p, fn);
    }
  }

  lemma LastSegment(dir: string, name: string)
    requires HasSuffix(name, BST)
    ensures var segs := Segments(dir + "/" + name);
      segs != [] && segs[|segs| - 1] == Parts(name)[|Parts(name)| - 1]
  {
    hide Parts, Follow;
    LastPart(name);
    FollowLast(Segments(dir), Parts(name));
    PartsAppend(dir, name);
    FollowAppend([], Parts(dir), Parts(name));
  }

  lemma BaseOfJoin(dir: string, name: string)
    requires HasSuffix(name, BST)
    ensures Paths.Base(Join(dir, name)) == Parts(name)[|Parts(name)| - 1]
  {
    hide Segments, Parts, Paths.Base;
    LastSegment(dir, name);
    SegmentsNormal(dir + "/" + name);
    BaseOfRooted(Segments(dir + "/" + name));
  }

  /** Without a project: exactly for references of one segment. */
  lemma LooseReference(cur: string, fn: string)
    ensures KeyOf("", Resolve("", cur, fn)) == Key(TrimBst(fn)) <==> CleanReference("", fn)
  {
    var name := WithBst(fn);
    var last := Parts(name)[|Parts(name)| - 1];
    WithBstEnds(fn);
    BaseOfJoin(Dir(cur), name);
    LastPart(name);
    if TrimBst(last) == TrimBst(name) {
      TrimInjective(last, name);
      assert last in Parts(name);
    }
    if '/' !in name {
      PartsOfOne(name);
    }
  }

  /** A reference resolves to a file keyed by the reference itself exactly when it is clean. */
  lemma ReferenceExact(elementRoot: string, cur: string, fn: string)
    ensures KeyOf(elementRoot, Resolve(elementRoot, cur, fn)) == Key(TrimBst(fn))
      <==> CleanReference(elementRoot, fn)
  {
    if elementRoot == "" {
      LooseReference(cur, fn);
    } else {
      ProjectReference(elementRoot, cur, fn);
    }
  }

  /** A reference that is not clean is the name of no file at all, wherever it leads. */
  lemma UncleanIsNoName(elementRoot: string, p: string, fn: string)
    requires Segments(p) != Segments(elementRoot) && !CleanReference(elementRoot, fn)
    ensures KeyOf(elementRoot, p) != Key(TrimBst(fn))
  {
    if elementRoot == "" {
      RootIsEmpty();
      BaseIsOneSegment(p);
      assert '/' in TrimBst(fn) by {
        assert HasSuffix(fn, BST) ==> fn == TrimBst(fn) + BST;
      }
    } else if !HasPrefix(Rel(elementRoot, p), "..") {
      if Segments(elementRoot) <= Segments(p) {
        if TrimBst(Rel(elementRoot, p)) == TrimBst(fn) {
          BelowIsClean(elementRoot, p, fn);
        }
      } else {
        RelOutside(elementRoot, p);
      }
    }
  }

  // ------------------------------------------------------------- a concrete reference

  lemma DottedParts()
    ensures Parts("./b.bst") == [".", "b.bst"] && Segments("/p") == ["p"]
  {
    PartsOfOne("b.bst");
    PartsFirst(".", "b.bst");
    assert "." + "/" + "b.bst" == "./b.bst";
    PartsOfOne("p");
    PartsFirst("", "p");
    assert "" + "/" + "p" == "/p";
    assert ["", "p"][1..] == ["p"] && ["p"][1..] == [];
    assert Follow([], ["", "p"]) == Follow([], ["p"]) == Follow(["p"], []) == ["p"];
  }

  lemma DottedTarget(cur: string)
    ensures Join("/p", "./b.bst") == "/p/b.bst"
  {
    hide Parts, Segments;
    DottedParts();
    JoinIs("/p", "./b.bst");
    assert [".", "b.bst"][1..] == ["b.bst"] && ["b.bst"][1..] == [];
    assert Follow(["p"], [".", "b.bst"]) == Follow(["p"], ["b.bst"]) == Follow(["p", "b.bst"], []);
    assert Slashed(["p", "b.bst"]) == "p/b.bst";
  }

  /** `./b.bst` in a project rooted at /p: it leads to the file b.bst, but is no clean reference. */
  lemma DottedReference(cur: string)
    ensures Resolve("/p", cur, "./b.bst") == "/p/b.bst"
    ensures TrimBst("./b.bst") == "./b" && !CleanReference("/p", "./b.bst")
  {
    hide Parts, Join;
    assert "./b.bst"[3..] == BST;
    DottedTarget(cur);
    DottedParts();
    assert "." in Parts("./b.bst");
  }
}
