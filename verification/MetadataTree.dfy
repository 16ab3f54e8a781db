/**
 The inode tree built from a flat table of contents: nodes are found or created by path, hardlinks
 share their target's node, directories that no entry lists appear on the way to their descendants.
 */
module MetadataTree {
  import opened Base
  import opened Paths

  type Id = nat

  const ROOT: Id := 1
  const MAX_ID: nat := 0xFFFF_FFFF
  const MODE_DIR: nat := 0x8000_0000

  datatype Attr = Attr(
    size: int, modTime: int, linkName: string, mode: int, uid: int, gid: int,
    devMajor: int, devMinor: int, xattrs: map<string, string>)

  const NO_ATTR := Attr(0, 0, "", 0, 0, 0, 0, 0, map[])
  const IMPLICIT_DIR := NO_ATTR.(mode := MODE_DIR + 0x1ED)

  datatype Kind = Dir | Hardlink | Other(typeBits: nat)

  datatype Entry = Entry(
    name: string, linkName: string, kind: Kind, size: int, modTime: int, perm: nat, uid: int, gid: int,
    devMajor: int, devMinor: int, xattrs: map<string, string>, uncompressedOffset: int, tarHeaderOffset: int)
  {
    function PathOf(): Path { Components(name) }

    function Target(): Path { Components(linkName) }

    function ModeOf(): int {
      match kind
      case Dir => perm + MODE_DIR
      case Hardlink => perm
      case Other(bits) => perm + bits
    }

    function AttrOf(): Attr {
      Attr(size, modTime, linkName, ModeOf(), uid, gid, devMajor, devMinor, xattrs)
    }

    function InfoOf(): Info {
      Info(name, uncompressedOffset, tarHeaderOffset, uncompressedOffset - tarHeaderOffset)
    }
  }

  datatype Info = Info(tarName: string, uncompressedOffset: int, tarHeaderOffset: int, tarHeaderSize: int)

  /** `links` is the stored link count, one less than the number it stands for. */
  datatype Node = Node(attr: Attr, links: int)

  datatype Tree = Tree(nodes: map<Id, Node>, kids: map<Id, map<string, Id>>, info: map<Id, Info>, cur: nat)

  /** Writing attributes to a node's bucket leaves keys of zero values as they were. */
  function WriteNode(was: Attr, a: Attr): Attr {
    Attr(
      if a.size != 0 then a.size else was.size,
      if a.modTime != 0 then a.modTime else was.modTime,
      if a.linkName != "" then a.linkName else was.linkName,
      if a.mode != 0 then a.mode else was.mode,
      if a.uid != 0 then a.uid else was.uid,
      if a.gid != 0 then a.gid else was.gid,
      if a.devMajor != 0 then a.devMajor else was.devMajor,
      if a.devMinor != 0 then a.devMinor else was.devMinor,
      if a.xattrs != map[] then a.xattrs else was.xattrs)
  }

  function EmptyTree(): Tree {
    Tree(map[ROOT := Node(IMPLICIT_DIR, 1)], map[], map[], ROOT)
  }

  function Front(p: Path): Path
    requires p != []
  {
    p[..|p| - 1]
  }

  function Last(p: Path): string
    requires p != []
  {
    p[|p| - 1]
  }

  /** Where a path is filed; the root is filed in itself. */
  function ParentOf(p: Path): Path {
    if p == [] then [] else Front(p)
  }

  /** The name a path is filed under. */
  function NameOf(p: Path): string {
    if p == [] then "." else Last(p)
  }

  /** The node a walk from the root along `p` ends at. */
  function Lookup(t: Tree, p: Path): Option<Id> {
    if p == [] then Some(ROOT)
    else
      var parent := Lookup(t, Front(p));
      if parent.Some? && parent.value in t.kids && Last(p) in t.kids[parent.value]
      then Some(t.kids[parent.value][Last(p)]) else None
  }

  /** A fresh node, unless the identifiers are used up. */
  function NewNode(t: Tree, a: Attr, links: int): Option<(Tree, Id)> {
    if t.cur >= MAX_ID then None
    else Some((t.(nodes := t.nodes[t.cur + 1 := Node(a, links)], cur := t.cur + 1), t.cur + 1))
  }

  function AddLink(t: Tree, id: Id): Tree {
    if id in t.nodes then t.(nodes := t.nodes[id := t.nodes[id].(links := t.nodes[id].links + 1)]) else t
  }

  function KidsOf(t: Tree, id: Id): map<string, Id> {
    if id in t.kids then t.kids[id] else map[]
  }

  /** Files a child under its parent; a directory child counts as a link to the parent. */
  function SetChild(t: Tree, parent: Id, base: string, id: Id, isDir: bool): Tree {
    var t1 := t.(kids := t.kids[parent := KidsOf(t, parent)[base := id]]);
    if isDir then AddLink(t1, parent) else t1
  }

  /** Finds the directory at `p` or creates it, and its missing ancestors after it. */
  function GetOrCreate(t: Tree, p: Path): Option<(Tree, Id)>
    decreases |p|
  {
    var found := Lookup(t, p);
    if found.Some? then
      if found.value in t.nodes then Some((t, found.value)) else None
    else
      var made := NewNode(t, IMPLICIT_DIR, 1);
      if made.None? then None
      else
        var (t1, id) := made.value;
        var above := GetOrCreate(t1, Front(p));
        if above.None? then None
        else
          var (t2, parent) := above.value;
          Some((SetChild(t2, parent, Last(p), id, true), id))
  }

  /** Writes or finds the node of an entry, before it is filed under its parent. */
  function EntryNode(t: Tree, e: Entry): Option<(Tree, Id)> {
    match e.kind
    case Hardlink =>
      var target := Lookup(t, e.Target());
      if target.None? || target.value !in t.nodes then None else Some((AddLink(t, target.value), target.value))
    case Dir =>
      var found := Lookup(t, e.PathOf());
      if found.None? then NewNode(t, WriteNode(NO_ATTR, e.AttrOf()), 1)
      else if found.value !in t.nodes then None
      else
        var n := t.nodes[found.value];
        Some((t.(nodes := t.nodes[found.value := n.(attr := WriteNode(n.attr, e.AttrOf()))]), found.value))
    case Other(_) => NewNode(t, WriteNode(NO_ATTR, e.AttrOf()), 0)
  }

  /** Files the node of an entry under its parent. */
  function FileEntry(t: Tree, e: Entry, id: Id): Option<Tree> {
    var p := e.PathOf();
    var above := GetOrCreate(t, ParentOf(p));
    if above.None? then None
    else
      var (t2, parent) := above.value;
      var t3 := SetChild(t2, parent, NameOf(p), id, e.kind.Dir?);
      Some(if e.kind.Hardlink? then t3 else t3.(info := t3.info[id := e.InfoOf()]))
  }

  function AddEntry(t: Tree, e: Entry): Option<Tree> {
    var noded := EntryNode(t, e);
    if noded.None? then None else FileEntry(noded.value.0, e, noded.value.1)
  }

  function Build(t: Tree, es: seq<Entry>): Option<Tree> {
    if es == [] then Some(t)
    else
      var before := Build(t, es[..|es| - 1]);
      if before.None? then None else AddEntry(before.value, es[|es| - 1])
  }

  // ------------------------------------------------------- shape of a tree

  /** No path leads to node `id`. */
  ghost predicate Unused(f: map<Path, Id>, id: Id) {
    forall q | q in f :: f[q] != id
  }

  lemma {:induction false} SamePath(p: Path, q: Path)
    requires p != [] && q != [] && Front(p) == Front(q) && Last(p) == Last(q)
    ensures p == q
  {
    assert p == Front(p) + [Last(p)] && q == Front(q) + [Last(q)];
  }

  /** Every path is filed under the directory above it. */
  ghost predicate Filed(t: Tree, f: map<Path, Id>, dirs: set<Path>) {
    forall p {:trigger FiledUnder(t, f, dirs, p)} | p in f :: FiledUnder(t, f, dirs, p)
  }

  predicate FiledUnder(t: Tree, f: map<Path, Id>, dirs: set<Path>, p: Path) {
    p in f && (p != [] ==> Last(p) != "." && Front(p) in dirs && Front(p) in f && KidIs(t, f[Front(p)], Last(p), f[p]))
  }

  predicate KidIs(t: Tree, parent: Id, name: string, id: Id) {
    parent in t.kids && name in t.kids[parent] && t.kids[parent][name] == id
  }

  /** Nothing else is filed under a path, the name "." aside. */
  ghost predicate Closed(t: Tree, f: map<Path, Id>) {
    forall p, n {:trigger p in f, n in KidsOf(t, f[p])} :: p in f && n in KidsOf(t, f[p]) && n != "." ==> p + [n] in f
  }

  /** Only directories have children, and a directory has one path. */
  ghost predicate DirsDistinct(t: Tree, f: map<Path, Id>, dirs: set<Path>) {
    && dirs <= f.Keys
    && (forall p, q {:trigger p in dirs, q in f} :: p in dirs && q in f && f[p] == f[q] ==> p == q)
    && (forall p | p in f && f[p] in t.kids :: p in dirs)
  }

  /** Identifiers in use were handed out before. */
  ghost predicate Numbered(t: Tree, f: map<Path, Id>) {
    && (forall p | p in f :: f[p] in t.nodes)
    && (forall d | d in t.kids :: d <= t.cur)
    && (forall id | id in t.nodes :: id <= t.cur)
  }

  /** `f` gives the node of every path that exists; `dirs` are the paths of directories. */
  ghost predicate Shape(t: Tree, f: map<Path, Id>, dirs: set<Path>) {
    && [] in f && f[[]] == ROOT && [] in dirs
    && Filed(t, f, dirs) && Closed(t, f) && DirsDistinct(t, f, dirs) && Numbered(t, f)
  }

  lemma {:induction false} PathsHaveNoDot(t: Tree, f: map<Path, Id>, dirs: set<Path>, p: Path)
    requires Filed(t, f, dirs) && p in f
    ensures "." !in p
    decreases |p|
  {
    if p != [] {
      assert FiledUnder(t, f, dirs, p);
      PathsHaveNoDot(t, f, dirs, Front(p));
      assert p == Front(p) + [Last(p)];
    }
  }

  /** Walking the tree finds exactly the paths of `f`. */
  lemma {:induction false} LookupIsF(t: Tree, f: map<Path, Id>, dirs: set<Path>, p: Path)
    requires Shape(t, f, dirs) && (p in f || "." !in p)
    ensures Lookup(t, p) == if p in f then Some(f[p]) else None
  {
    if p != [] {
      if p in f {
        assert FiledUnder(t, f, dirs, p);
        LookupIsF(t, f, dirs, Front(p));
      } else {
        LookupIsF(t, f, dirs, Front(p));
        assert Front(p) + [Last(p)] == p;
        if Front(p) in f {
          assert Last(p) !in KidsOf(t, f[Front(p)]);
        }
      }
    }
  }

  /** A node nobody refers to yet changes nothing. */
  lemma {:induction false} NewNodeKeepsShape(t: Tree, f: map<Path, Id>, dirs: set<Path>, a: Attr, links: int)
    requires Shape(t, f, dirs) && t.cur < MAX_ID
    ensures Shape(NewNode(t, a, links).value.0, f, dirs)
    ensures Unused(f, t.cur + 1) && t.cur + 1 !in t.kids && t.cur + 1 !in t.nodes
  {
    var t' := NewNode(t, a, links).value.0;
    assert forall d :: KidsOf(t', d) == KidsOf(t, d);
    SameKidsFiled(t, t', f, dirs);
  }

  lemma {:induction false} SameKidsFiled(t: Tree, t': Tree, f: map<Path, Id>, dirs: set<Path>)
    requires Filed(t, f, dirs) && t'.kids == t.kids
    ensures Filed(t', f, dirs)
  {
    forall p | p in f ensures FiledUnder(t', f, dirs, p) {
      assert FiledUnder(t, f, dirs, p);
    }
  }

  lemma {:induction false} SetChildKids(t: Tree, parent: Id, base: string, id: Id, isDir: bool)
    ensures var t' := SetChild(t, parent, base, id, isDir);
            && t'.kids == t.kids[parent := KidsOf(t, parent)[base := id]]
            && t'.nodes.Keys == t.nodes.Keys && t'.cur == t.cur && t'.info == t.info
            && (forall d :: d in t.nodes ==> t'.nodes[d].attr == t.nodes[d].attr)
  {
  }

  lemma {:induction false} FilingKeepsFiled(t: Tree, t': Tree, f: map<Path, Id>, dirs: set<Path>, p: Path,
        id: Id, dirs': set<Path>)
    requires Filed(t, f, dirs) && p != [] && p !in f && Front(p) in dirs && Front(p) in f && dirs <= dirs'
    requires DirsDistinct(t, f, dirs) && Last(p) != "."
    requires t'.kids == t.kids[f[Front(p)] := KidsOf(t, f[Front(p)])[Last(p) := id]]
    ensures Filed(t', f[p := id], dirs')
  {
    var f' := f[p := id];
    forall q | q in f' ensures FiledUnder(t', f', dirs', q) {
      if q != p && q != [] {
        assert FiledUnder(t, f, dirs, q);
        if f[Front(q)] == f[Front(p)] && Last(q) == Last(p) {
          SamePath(q, p);
        }
      }
    }
  }

  lemma {:induction false} FilingKeepsClosed(t: Tree, t': Tree, f: map<Path, Id>, dirs: set<Path>, p: Path, id: Id)
    requires Closed(t, f) && p != [] && p !in f && Front(p) in dirs && Front(p) in f
    requires DirsDistinct(t, f, dirs) && id !in t.kids && id != f[Front(p)]
    requires t'.kids == t.kids[f[Front(p)] := KidsOf(t, f[Front(p)])[Last(p) := id]]
    ensures Closed(t', f[p := id])
  {
    var f' := f[p := id];
    assert Front(p) + [Last(p)] == p;
    forall q, n | q in f' && n in KidsOf(t', f'[q]) && n != "." ensures q + [n] in f' {
      assert KidsOf(t', id) == map[];
      if q == p {
      } else if f[q] == f[Front(p)] {
        assert q == Front(p);
        assert n == Last(p) || n in KidsOf(t, f[q]);
      } else {
        assert n in KidsOf(t, f[q]);
      }
    }
  }

  /** Filing a new path. */
  lemma {:induction false} SetChildShape(t: Tree, f: map<Path, Id>, dirs: set<Path>, p: Path, id: Id, isDir: bool)
    requires Shape(t, f, dirs) && p != [] && p !in f && Front(p) in dirs && id in t.nodes && id !in t.kids
    requires Last(p) != "."
    requires isDir ==> Unused(f, id)
    requires forall q | q in dirs :: f[q] != id
    ensures Shape(SetChild(t, f[Front(p)], Last(p), id, isDir), f[p := id], if isDir then dirs + {p} else dirs)
  {
    var t' := SetChild(t, f[Front(p)], Last(p), id, isDir);
    SetChildKids(t, f[Front(p)], Last(p), id, isDir);
    FilingKeepsFiled(t, t', f, dirs, p, id, if isDir then dirs + {p} else dirs);
    FilingKeepsClosed(t, t', f, dirs, p, id);
    FilingKeepsDistinct(t, t', f, dirs, p, id, isDir);
  }

  lemma {:induction false} FilingKeepsDistinct(t: Tree, t': Tree, f: map<Path, Id>, dirs: set<Path>, p: Path, id: Id,
        isDir: bool)
    requires DirsDistinct(t, f, dirs) && p != [] && p !in f && Front(p) in dirs && id !in t.kids
    requires isDir ==> Unused(f, id)
    requires forall q | q in dirs :: f[q] != id
    requires t'.kids.Keys == t.kids.Keys + {f[Front(p)]}
    ensures DirsDistinct(t', f[p := id], if isDir then dirs + {p} else dirs)
  {
    var f' := f[p := id];
    var dirs' := if isDir then dirs + {p} else dirs;
    forall q | q in f' && f'[q] in t'.kids ensures q in dirs' {
      if q != p && f[q] == f[Front(p)] {
        assert q == Front(p);
      }
    }
  }

  // ---------------------------------------------------- missing directories

  /** `p` and the directories on the way to it. */
  function Prefixes(p: Path): set<Path> {
    if p == [] then {[]} else Prefixes(Front(p)) + {p}
  }

  lemma {:induction false} PrefixesAre(p: Path, q: Path)
    ensures q in Prefixes(p) <==> q <= p
  {
    if p != [] {
      PrefixesAre(Front(p), q);
      assert q <= p <==> q <= Front(p) || q == p;
    }
  }

  lemma {:induction false} NotAboveItself(p: Path)
    requires p != []
    ensures p !in Prefixes(Front(p)) && p in Prefixes(p) && Front(p) in Prefixes(Front(p))
  {
    PrefixesAre(Front(p), p);
  }

  /** Everything above an existing path exists and is a directory. */
  lemma {:induction false} PrefixesAreDirs(t: Tree, f: map<Path, Id>, dirs: set<Path>, p: Path)
    requires Shape(t, f, dirs) && p in f
    ensures Prefixes(p) <= f.Keys && Prefixes(p) - {p} <= dirs
    decreases |p|
  {
    if p != [] {
      assert FiledUnder(t, f, dirs, p);
      PrefixesAreDirs(t, f, dirs, Front(p));
    }
  }

  /** The paths on the way to `p` were added as directories. */
  ghost predicate GrownPaths(f: map<Path, Id>, dirs: set<Path>, f': map<Path, Id>, dirs': set<Path>, p: Path) {
    && f'.Keys == f.Keys + Prefixes(p)
    && dirs' == dirs + Prefixes(p)
    && (forall q | q in f :: f'[q] == f[q])
  }

  /** New paths got new implicit directories; old nodes kept their attributes. */
  ghost predicate GrownNodes(t: Tree, f: map<Path, Id>, t': Tree, f': map<Path, Id>) {
    && (forall q | q in f' && q !in f :: NewImplicitDir(t, t', f'[q]))
    && (forall d | d in t.nodes :: d in t'.nodes && t'.nodes[d].attr == t.nodes[d].attr)
    && (forall d | d in t'.kids && Unused(f', d) :: d in t.kids)
    && t'.info == t.info && t.cur <= t'.cur
  }

  predicate NewImplicitDir(t: Tree, t': Tree, id: Id) {
    t.cur < id && id in t'.nodes && t'.nodes[id].attr == IMPLICIT_DIR
  }

  /** The tree grew by the directories on the way to `p`, and nothing else changed but link counts. */
  ghost predicate Grown(t: Tree, f: map<Path, Id>, dirs: set<Path>, t': Tree, f': map<Path, Id>, dirs': set<Path>,
        p: Path) {
    GrownPaths(f, dirs, f', dirs', p) && GrownNodes(t, f, t', f')
  }

  lemma {:induction false} GrownPathsByOne(f: map<Path, Id>, dirs: set<Path>, f2: map<Path, Id>,
        dirs2: set<Path>, p: Path, id: Id)
    requires p != [] && p !in f && GrownPaths(f, dirs, f2, dirs2, Front(p))
    ensures p !in f2 && Front(p) in f2 && Front(p) in dirs2
    ensures GrownPaths(f, dirs, f2[p := id], dirs2 + {p}, p)
  {
    NotAboveItself(p);
  }

  lemma {:induction false} GrownNodesByOne(t: Tree, f: map<Path, Id>, t1: Tree, id: Id, t2: Tree, f2: map<Path, Id>,
        p: Path)
    requires p != [] && p !in f && p !in f2 && Front(p) in f2 && NewNode(t, IMPLICIT_DIR, 1) == Some((t1, id))
    requires GrownNodes(t1, f, t2, f2) && Numbered(t, f)
    ensures GrownNodes(t, f, SetChild(t2, f2[Front(p)], Last(p), id, true), f2[p := id])
  {
    SetChildKids(t2, f2[Front(p)], Last(p), id, true);
    assert id in t1.nodes && t1.nodes[id].attr == IMPLICIT_DIR;
    GrownNodesStep(t, f, t1, id, t2, f2, SetChild(t2, f2[Front(p)], Last(p), id, true), p);
  }

  lemma {:induction false} GrownNodesStep(t: Tree, f: map<Path, Id>, t1: Tree, id: Id, t2: Tree, f2: map<Path, Id>,
        t3: Tree, p: Path)
    requires p != [] && p !in f && p !in f2 && Front(p) in f2 && GrownNodes(t1, f, t2, f2)
    requires t.nodes.Keys <= t1.nodes.Keys && t1.kids == t.kids && t1.info == t.info && t.cur < id == t1.cur
    requires forall d | d in t.nodes :: t1.nodes[d].attr == t.nodes[d].attr
    requires id in t1.nodes && t1.nodes[id].attr == IMPLICIT_DIR
    requires t3.kids.Keys == t2.kids.Keys + {f2[Front(p)]} && t3.nodes.Keys == t2.nodes.Keys
    requires t3.cur == t2.cur && t3.info == t2.info
    requires forall d | d in t2.nodes :: t3.nodes[d].attr == t2.nodes[d].attr
    ensures GrownNodes(t, f, t3, f2[p := id])
  {
    var f' := f2[p := id];
    forall d | d in t3.kids && Unused(f', d) ensures d in t.kids {
      GrownKidsByOne(f2, id, t2, t3, p, d);
    }
    NewDirsByOne(t, f, t1, id, t2, f2, t3, p);
  }

  lemma {:induction false} NewDirsByOne(t: Tree, f: map<Path, Id>, t1: Tree, id: Id, t2: Tree, f2: map<Path, Id>,
        t3: Tree, p: Path)
    requires t.cur < id <= t1.cur && t.cur <= t1.cur && NewImplicitDir(t, t2, id)
    requires forall q | q in f2 && q !in f :: NewImplicitDir(t1, t2, f2[q])
    requires forall d | d in t2.nodes :: d in t3.nodes && t3.nodes[d].attr == t2.nodes[d].attr
    ensures forall q | q in f2[p := id] && q !in f :: NewImplicitDir(t, t3, f2[p := id][q])
  {
    forall q | q in f2[p := id] && q !in f ensures NewImplicitDir(t, t3, f2[p := id][q]) {
      if q != p { assert NewImplicitDir(t1, t2, f2[q]); }
    }
  }

  lemma {:induction false} GrownKidsByOne(f2: map<Path, Id>, id: Id, t2: Tree, t3: Tree, p: Path, d: Id)
    requires p != [] && p !in f2 && Front(p) in f2
    requires t3.kids.Keys == t2.kids.Keys + {f2[Front(p)]} && d in t3.kids && Unused(f2[p := id], d)
    ensures d in t2.kids && Unused(f2, d)
  {
    assert f2[p := id][Front(p)] == f2[Front(p)] != d;
    UnusedBefore(f2, p, id, d);
  }

  lemma {:induction false} UnusedBefore(f: map<Path, Id>, p: Path, id: Id, d: Id)
    requires p !in f && Unused(f[p := id], d)
    ensures Unused(f, d)
  {
    forall q | q in f ensures f[q] != d {
      assert f[p := id][q] == f[q];
    }
  }

  /** A node made before missing directories were created is still referred to by nobody. */
  lemma {:induction false} FreshStaysUnused(t: Tree, f: map<Path, Id>, t1: Tree, id: Id, t2: Tree, f2: map<Path, Id>)
    requires Numbered(t, f) && id == t.cur + 1 == t1.cur && t1.kids == t.kids && id in t1.nodes
    requires GrownNodes(t1, f, t2, f2) && forall q | q in f && q in f2 :: f2[q] == f[q]
    ensures id in t2.nodes && id !in t2.kids && Unused(f2, id)
  {
    forall q | q in f2 ensures f2[q] != id {
      if q in f { assert f[q] in t.nodes; } else { assert NewImplicitDir(t1, t2, f2[q]); }
    }
  }

  /** The tree after the directory at `p` was filed under its parent. */
  lemma {:induction false} CreatedDirShape(t: Tree, f: map<Path, Id>, dirs: set<Path>, p: Path, t1: Tree, id: Id,
        t2: Tree, f2: map<Path, Id>, dirs2: set<Path>)
    requires Numbered(t, f) && p != [] && p !in f && NewNode(t, IMPLICIT_DIR, 1) == Some((t1, id))
    requires Last(p) != "."
    requires Shape(t2, f2, dirs2) && Grown(t1, f, dirs, t2, f2, dirs2, Front(p))
    ensures p !in f2 && Front(p) in f2 && Front(p) in dirs2 && Unused(f2, id)
    ensures var t3 := SetChild(t2, f2[Front(p)], Last(p), id, true);
            Shape(t3, f2[p := id], dirs2 + {p}) && Grown(t, f, dirs, t3, f2[p := id], dirs2 + {p}, p)
  {
    GrownPathsByOne(f, dirs, f2, dirs2, p, id);
    GrownNodesByOne(t, f, t1, id, t2, f2, p);
    FreshStaysUnused(t, f, t1, id, t2, f2);
    SetChildShape(t2, f2, dirs2, p, id, true);
  }

  /** Creating missing directories keeps the tree well shaped. */
  lemma {:induction false} GetOrCreateShape(t: Tree, f: map<Path, Id>, dirs: set<Path>, p: Path)
    returns (f': map<Path, Id>, dirs': set<Path>)
    requires Shape(t, f, dirs) && GetOrCreate(t, p).Some? && "." !in p
    requires Prefixes(p) * f.Keys <= dirs
    ensures var (t', id) := GetOrCreate(t, p).value;
            && Shape(t', f', dirs') && Grown(t, f, dirs, t', f', dirs', p)
            && p in f' && f'[p] == id && p in dirs'
    decreases |p|
  {
    LookupIsF(t, f, dirs, p);
    if p in f {
      f', dirs' := f, dirs;
      PrefixesAreDirs(t, f, dirs, p);
    } else {
      NewNodeKeepsShape(t, f, dirs, IMPLICIT_DIR, 1);
      var (t1, id) := NewNode(t, IMPLICIT_DIR, 1).value;
      var f2, dirs2 := GetOrCreateShape(t1, f, dirs, Front(p));
      f', dirs' := f2[p := id], dirs2 + {p};
      var t2 := GetOrCreate(t1, Front(p)).value.0;
      assert GetOrCreate(t, p) == Some((SetChild(t2, f2[Front(p)], Last(p), id, true), id));
      CreatedDirShape(t, f, dirs, p, t1, id, t2, f2, dirs2);
    }
  }
}
