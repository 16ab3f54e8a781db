/**
 Entry paths of a tar: cleaning a name, splitting off the last element, and the sequence of path
 elements a name stands for.
 */
module Paths {

  type Path = seq<string>

  /** What an element of a cleaned path looks like. */
  predicate Normal(name: string) {
    name != "" && name != "." && name != ".." && '/' !in name
  }

  predicate NormalPath(p: Path) {
    forall i :: 0 <= i < |p| ==> Normal(p[i])
  }

  /** Appends one raw element to a rooted path: "" and "." vanish, ".." removes the last element. */
  function Push(p: Path, name: string): Path {
    if name == "" || name == "." then p
    else if name == ".." then (if p == [] then [] else p[..|p| - 1])
    else p + [name]
  }

  /** Reads `s` with `cur` already read of the current element and `done` before it. */
  function Scan(s: string, cur: string, done: Path): Path
    decreases |s|
  {
    if s == "" then Push(done, cur)
    else if s[0] == '/' then Scan(s[1..], "", Push(done, cur))
    else Scan(s[1..], cur + [s[0]], done)
  }

  /** The elements of a name read as a path from the root. */
  function Components(s: string): Path {
    Scan(s, "", [])
  }

  function Join(p: Path): string {
    if p == [] then ""
    else if |p| == 1 then p[0]
    else Join(p[..|p| - 1]) + "/" + p[|p| - 1]
  }

  /** A clean path without leading or trailing separator. */
  function CleanEntryPath(s: string): string {
    Join(Components(s))
  }

  /** Splits right after the last separator. */
  function SplitPath(s: string): (string, string) {
    if s == "" then ("", "")
    else if s[|s| - 1] == '/' then (s, "")
    else
      var (dir, base) := SplitPath(s[..|s| - 1]);
      (dir, base + [s[|s| - 1]])
  }

  function ParentDir(s: string): string {
    SplitPath(s).0
  }

  function StripSlashes(s: string): string {
    if s != "" && s[|s| - 1] == '/' then StripSlashes(s[..|s| - 1]) else s
  }

  /** Last element of a path, "." for the empty path. */
  function BaseName(s: string): string {
    if s == "" then "."
    else if StripSlashes(s) == "" then "/"
    else SplitPath(StripSlashes(s)).1
  }

  // ---------------------------------------------------------------- facts

  lemma {:induction false} ScanNormal(s: string, cur: string, done: Path)
    requires NormalPath(done) && '/' !in cur
    ensures NormalPath(Scan(s, cur, done))
    decreases |s|
  {
    if s == "" {
    } else if s[0] == '/' {
      ScanNormal(s[1..], "", Push(done, cur));
    } else {
      ScanNormal(s[1..], cur + [s[0]], done);
    }
  }

  lemma {:induction false} ComponentsNormal(s: string)
    ensures NormalPath(Components(s))
  {
    ScanNormal(s, "", []);
  }

  lemma {:induction false} ScanName(name: string, rest: string, cur: string, done: Path)
    requires '/' !in name
    ensures Scan(name + rest, cur, done) == Scan(rest, cur + name, done)
    decreases |name|
  {
    if name == "" {
      assert name + rest == rest && cur + name == cur;
    } else {
      assert (name + rest)[1..] == name[1..] + rest;
      assert cur + name == (cur + [name[0]]) + name[1..];
      ScanName(name[1..], rest, cur + [name[0]], done);
    }
  }

  lemma {:induction false} ScanJoin(p: Path, rest: string)
    requires NormalPath(p) && p != []
    ensures Scan(Join(p) + rest, "", []) == Scan(rest, p[|p| - 1], p[..|p| - 1])
    decreases |p|
  {
    var last := p[|p| - 1];
    if |p| == 1 {
      ScanName(last, rest, "", []);
      assert "" + last == last && p[..0] == [];
    } else {
      var front := p[..|p| - 1];
      var tail := "/" + last + rest;
      assert Join(p) + rest == Join(front) + tail;
      ScanJoin(front, tail);
      ScanElement(front, last, rest, tail);
    }
  }

  /** A separator and an element behind a path: the path is done and the element is read. */
  lemma {:induction false} ScanElement(front: Path, name: string, rest: string, s: string)
    requires NormalPath(front) && front != [] && '/' !in name && s == "/" + name + rest
    ensures Scan(s, front[|front| - 1], front[..|front| - 1]) == Scan(rest, name, front)
  {
    assert s == "/" + (name + rest);
    ScanSlash(name + rest, s, front);
    ScanName(name, rest, "", front);
    assert "" + name == name;
  }

  /** A separator ends the element read so far. */
  lemma {:induction false} ScanSlash(tail: string, s: string, p: Path)
    requires NormalPath(p) && p != [] && s == "/" + tail
    ensures Scan(s, p[|p| - 1], p[..|p| - 1]) == Scan(tail, "", p)
  {
    assert s[1..] == tail && p == p[..|p| - 1] + [p[|p| - 1]];
  }

  /** Cleaning loses nothing: a clean path has the elements it was joined from, with or without a
      trailing separator. */
  lemma {:induction false} ComponentsOfJoin(p: Path)
    requires NormalPath(p)
    ensures Components(Join(p)) == p
    ensures Components(Join(p) + "/") == p
  {
    if p == [] {
      assert Join(p) + "/" == "/";
    } else {
      ScanJoin(p, "");
      ScanJoin(p, "/");
      assert Join(p) + "" == Join(p);
      assert p[..|p| - 1] + [p[|p| - 1]] == p;
    }
  }

  lemma {:induction false} ScanBehind(s: string, name: string, cur: string, done: Path)
    requires '/' !in name
    ensures Scan(s + "/" + name, cur, done) == Push(Scan(s, cur, done), name)
    decreases |s|
  {
    var all := s + "/" + name;
    if s == "" {
      assert all[1..] == name + "";
      ScanName(name, "", "", Push(done, cur));
      assert "" + name == name;
    } else {
      assert all[1..] == s[1..] + "/" + name;
      ScanBehind(s[1..], name, if s[0] == '/' then "" else cur + [s[0]], if s[0] == '/' then Push(done, cur) else done);
    }
  }

  /** A raw element behind anything: "" and "." stay, ".." goes up and stays at the root, any other name goes
      down. With `ElementAlone` this says what every string stands for. */
  lemma {:induction false} ElementBehindPath(s: string, name: string)
    requires '/' !in name
    ensures var p := Components(s);
            Components(s + "/" + name) ==
              if name == "" || name == "." then p
              else if name == ".." then (if p == [] then [] else p[..|p| - 1])
              else p + [name]
  {
    ScanBehind(s, name, "", []);
  }

  lemma {:induction false} ElementAlone(name: string)
    requires '/' !in name
    ensures Components(name) == if name == "" || name == "." || name == ".." then [] else [name]
  {
    ScanName(name, "", "", []);
    assert name + "" == name && "" + name == name;
  }

  /** Cleaning twice is cleaning once. */
  lemma {:induction false} CleanIsIdempotent(s: string)
    ensures CleanEntryPath(CleanEntryPath(s)) == CleanEntryPath(s)
  {
    ComponentsNormal(s);
    ComponentsOfJoin(Components(s));
  }

  lemma {:induction false} SplitName(dir: string, name: string)
    requires '/' !in name && (dir == "" || dir[|dir| - 1] == '/')
    ensures SplitPath(dir + name) == (dir, name)
    decreases |name|
  {
    if name == "" {
      assert dir + name == dir;
    } else {
      var s := dir + name;
      assert s[..|s| - 1] == dir + name[..|name| - 1];
      SplitName(dir, name[..|name| - 1]);
      assert s[|s| - 1] == name[|name| - 1] != '/';
      assert name[..|name| - 1] + [name[|name| - 1]] == name;
    }
  }

  /** The string a clean path is split into: its parent with a trailing separator, and its last element. */
  function DirPrefix(p: Path): string {
    if p == [] then "" else Join(p) + "/"
  }

  lemma {:induction false} SplitOfJoin(p: Path)
    requires NormalPath(p) && p != []
    ensures SplitPath(Join(p)) == (DirPrefix(p[..|p| - 1]), p[|p| - 1])
  {
    var front, last := p[..|p| - 1], p[|p| - 1];
    if |p| == 1 {
      SplitName("", last);
      assert "" + last == last;
    } else {
      SplitName(Join(front) + "/", last);
    }
  }

  lemma {:induction false} JoinEndsInName(p: Path)
    requires NormalPath(p) && p != []
    ensures Join(p) != "" && Join(p)[|Join(p)| - 1] != '/'
  {
    var last := p[|p| - 1];
    assert Join(p)[|Join(p)| - 1] == last[|last| - 1];
    assert last[|last| - 1] in last;
  }

  /** The last element is found with and without a trailing separator. */
  lemma {:induction false} BaseOfJoin(p: Path)
    requires NormalPath(p) && p != []
    ensures BaseName(Join(p)) == p[|p| - 1] == BaseName(Join(p) + "/")
  {
    JoinEndsInName(p);
    SplitOfJoin(p);
    var s := Join(p) + "/";
    assert s[..|s| - 1] == Join(p);
    assert StripSlashes(s) == StripSlashes(Join(p)) == Join(p);
  }

  /** Bound on how often a path lookup goes to the parent. */
  function Depth(s: string): nat {
    if s == "" then 0 else 1 + |Components(s)|
  }

  /** Going to the parent of a non-empty path makes it less deep, so lookups end. */
  lemma {:induction false} ParentIsLessDeep(s: string)
    requires s != ""
    ensures Depth(SplitPath(CleanEntryPath(s)).0) < Depth(s)
  {
    var p := Components(s);
    ComponentsNormal(s);
    if p != [] {
      SplitOfJoin(p);
      ComponentsOfJoin(p[..|p| - 1]);
    }
  }
}
