/** The parts of Go's path/filepath the tools take paths apart with (POSIX paths). */
module Paths {

  function StripSlashes(p: string): string {
    if p != "" && p[|p| - 1] == '/' then StripSlashes(p[..|p| - 1]) else p
  }

  /** What follows the last slash. */
  function AfterSlash(p: string): string {
    if p == "" || p[|p| - 1] == '/' then "" else AfterSlash(p[..|p| - 1]) + [p[|p| - 1]]
  }

  /** filepath.Base */
  function Base(p: string): string {
    if p == "" then "."
    else if AfterSlash(StripSlashes(p)) == "" then "/"
    else AfterSlash(StripSlashes(p))
  }

  /** What precedes the last slash; "." when there is none.  filepath.Dir on a clean relative path. */
  function Dir(p: string): string {
    if p == "" then "."
    else if p[|p| - 1] == '/' then p[..|p| - 1]
    else Dir(p[..|p| - 1])
  }

  lemma {:induction false} AfterSlashJoined(dir: string, p: string)
    ensures AfterSlash(dir + "/" + p) == AfterSlash(p)
  {
    var joined := dir + "/" + p;
    if p == "" {
      assert joined[|joined| - 1] == '/';
    } else {
      var last := |p| - 1;
      assert joined[|joined| - 1] == p[last];
      assert joined[..|joined| - 1] == dir + "/" + p[..last];
      AfterSlashJoined(dir, p[..last]);
    }
  }

  /** A path to a file, not to a directory: object files are like this. */
  predicate NamesFile(p: string) {
    p != "" && p[|p| - 1] != '/'
  }

  /** Two ways to split one joined path agree on its last component. */
  lemma JoinedBase(dir: string, p: string, dir': string, p': string)
    requires NamesFile(p) && dir + "/" + p == dir' + "/" + p'
    ensures Base(p) == Base(p')
  {
    var joined, joined' := dir + "/" + p, dir' + "/" + p';
    assert joined[|joined| - 1] == p[|p| - 1];
    assert joined'[|joined'| - 1] == if p' == "" then '/' else p'[|p'| - 1];
    AfterSlashJoined(dir, p);
    AfterSlashJoined(dir', p');
  }

  lemma {:induction false} AfterSlashPlain(p: string)
    requires '/' !in p
    ensures AfterSlash(p) == p
  {
    if p != "" {
      assert p[|p| - 1] in p;
      AfterSlashPlain(p[..|p| - 1]);
    }
  }

  /** A file in a directory: its base name is the file's name. */
  lemma BaseOfFile(dir: string, file: string)
    requires file != "" && '/' !in file
    ensures Base(dir + "/" + file) == file && Base(file) == file
  {
    assert file[|file| - 1] in file;
    AfterSlashPlain(file);
    AfterSlashJoined(dir, file);
    assert (dir + "/" + file)[|dir + "/" + file| - 1] == file[|file| - 1];
  }

  /** And its directory is that directory. */
  lemma {:induction false} DirOfFile(dir: string, file: string)
    requires '/' !in file
    ensures Dir(dir + "/" + file) == dir
  {
    var joined := dir + "/" + file;
    var last := |joined| - 1;
    if file == "" {
      assert joined[last] == '/' && joined[..last] == dir;
    } else {
      assert file[|file| - 1] in file && joined[last] == file[|file| - 1];
      assert joined[..last] == dir + "/" + file[..|file| - 1];
      DirOfFile(dir, file[..|file| - 1]);
    }
  }
}
