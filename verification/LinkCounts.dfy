/**
 Link counts of the built tree: for a directory 2 plus its child directories, for a file 1 plus its
 hardlinks, and exactly when the code's counting of directories gives that number.
 */
module LinkCounts {
  import opened Base
  import opened Paths
  import opened MetadataTree
  import opened TreeAgreement
  import NodeIds

  /** The number of links a stored count stands for. */
  function NumLink(n: Node): int {
    n.links + 1
  }

  function KidDirs(dirs: set<Path>, p: Path): set<Path> {
    set q | q in dirs && q != [] && Front(q) == p
  }

  /** A directory entry that is listed after something below it, or that lists the root. */
  predicate Late(before: seq<Entry>, e: Entry) {
    e.kind.Dir? && e.PathOf() in TocPaths(before)
  }

  /** How many directories directly below `p` are listed late. */
  function LateBelow(es: seq<Entry>, p: Path): nat {
    if es == [] then 0
    else
      var before, e := es[..|es| - 1], es[|es| - 1];
      LateBelow(before, p) + (if Late(before, e) && ParentOf(e.PathOf()) == p then 1 else 0)
  }

  function Excess(es: seq<Entry>): Path -> int {
    p => LateBelow(es, p)
  }

  /** How many hardlinks lead to node `id`. */
  function HardlinksTo(es: seq<Entry>, f: map<Path, Id>, id: Id): nat {
    if es == [] then 0
    else
      var e := es[|es| - 1];
      HardlinksTo(es[..|es| - 1], f, id) + (if e.kind.Hardlink? && e.PathOf() in f && f[e.PathOf()] == id then 1 else 0)
  }

  ghost predicate DirLinks(t: Tree, f: map<Path, Id>, dirs: set<Path>, x: Path -> int) {
    forall p {:trigger DirLinkOk(t, f, dirs, x, p)} | p in dirs :: DirLinkOk(t, f, dirs, x, p)
  }

  predicate DirLinkOk(t: Tree, f: map<Path, Id>, dirs: set<Path>, x: Path -> int, p: Path) {
    p in f && f[p] in t.nodes && t.nodes[f[p]].links == 1 + |KidDirs(dirs, p)| + x(p)
  }

  /** The nodes of the directories. */
  ghost function DirIds(f: map<Path, Id>, dirs: set<Path>): set<Id> {
    set q | q in dirs && q in f :: f[q]
  }

  /** Other nodes kept their link counts. */
  ghost predicate LinksKept(t: Tree, t': Tree, except: set<Id>) {
    forall d | d in t.nodes && d !in except :: d in t'.nodes && t'.nodes[d].links == t.nodes[d].links
  }

  // ------------------------------------------------------ one more child

  lemma {:induction false} KidDirsGrow(dirs: set<Path>, p: Path)
    requires p != [] && p !in dirs && forall q | q in dirs && q != [] :: Front(q) != p
    ensures KidDirs(dirs + {p}, p) == {}
    ensures |KidDirs(dirs + {p}, Front(p))| == |KidDirs(dirs, Front(p))| + 1
    ensures forall q :: q != p && q != Front(p) ==> KidDirs(dirs + {p}, q) == KidDirs(dirs, q)
  {
    assert KidDirs(dirs + {p}, Front(p)) == KidDirs(dirs, Front(p)) + {p};
  }

  /** Nothing lies below a path that does not exist. */
  lemma {:induction false} NothingBelow(t: Tree, f: map<Path, Id>, dirs: set<Path>, p: Path)
    requires Shape(t, f, dirs) && p !in f
    ensures p !in dirs && forall q | q in dirs && q != [] :: Front(q) != p
  {
    forall q | q in dirs && q != [] ensures Front(q) != p {
      assert FiledUnder(t, f, dirs, q);
    }
  }

  lemma {:induction false} SetChildDirLinks(t: Tree, f: map<Path, Id>, dirs: set<Path>, p: Path, id: Id, x: Path -> int)
    requires DirsDistinct(t, f, dirs) && DirLinks(t, f, dirs, x) && p != [] && p !in f && Front(p) in dirs
    requires forall q | q in dirs && q != [] :: Front(q) != p
    requires Unused(f, id) && id in t.nodes && t.nodes[id].links == 1 && x(p) == 0
    ensures DirLinks(SetChild(t, f[Front(p)], Last(p), id, true), f[p := id], dirs + {p}, x)
  {
    KidDirsGrow(dirs, p);
    var t' := SetChild(t, f[Front(p)], Last(p), id, true);
    var f', dirs' := f[p := id], dirs + {p};
    assert DirLinkOk(t, f, dirs, x, Front(p));
    assert t'.nodes == t.nodes[f[Front(p)] := t.nodes[f[Front(p)]].(links := t.nodes[f[Front(p)]].links + 1)];
    forall q | q in dirs' ensures DirLinkOk(t', f', dirs', x, q) {
      if q != p && q != Front(p) {
        assert DirLinkOk(t, f, dirs, x, q);
        assert f[q] != f[Front(p)];
      }
    }
  }

  // -------------------------------------------------- missing directories

  /** A tree has one map from paths to nodes. */
  lemma {:induction false} ShapeUnique(t: Tree, f: map<Path, Id>, dirs: set<Path>, g: map<Path, Id>, dirs2: set<Path>)
    requires Shape(t, f, dirs) && Shape(t, g, dirs2)
    ensures f == g
  {
    forall p ensures (p in f <==> p in g) && (p in f ==> f[p] == g[p]) {
      if p in f { PathsHaveNoDot(t, f, dirs, p); }
      if p in g { PathsHaveNoDot(t, g, dirs2, p); }
      if p in f || p in g {
        LookupIsF(t, f, dirs, p);
        LookupIsF(t, g, dirs2, p);
      }
    }
  }

  lemma {:induction false} GetOrCreateLinks(t: Tree, f: map<Path, Id>, dirs: set<Path>, p: Path, x: Path -> int)
    returns (f': map<Path, Id>, dirs': set<Path>)
    requires Shape(t, f, dirs) && DirLinks(t, f, dirs, x) && GetOrCreate(t, p).Some? && "." !in p
    requires Prefixes(p) * f.Keys <= dirs
    requires forall q :: q !in f ==> x(q) == 0
    ensures p in f' && GetOrCreate(t, p).value.1 == f'[p]
    ensures Shape(GetOrCreate(t, p).value.0, f', dirs')
    ensures Grown(t, f, dirs, GetOrCreate(t, p).value.0, f', dirs', p)
    ensures DirLinks(GetOrCreate(t, p).value.0, f', dirs', x)
    ensures LinksKept(t, GetOrCreate(t, p).value.0, DirIds(f', dirs'))
    decreases |p|
  {
    LookupIsF(t, f, dirs, p);
    if p in f {
      f', dirs' := f, dirs;
      PrefixesAreDirs(t, f, dirs, p);
    } else {
      var (t1, id) := NewNode(t, IMPLICIT_DIR, 1).value;
      NewNodeKeepsShape(t, f, dirs, IMPLICIT_DIR, 1);
      NewNodeLinks(t, f, dirs, IMPLICIT_DIR, 1, x);
      var f2, dirs2 := GetOrCreateLinks(t1, f, dirs, Front(p), x);
      f', dirs' := f2[p := id], dirs2 + {p};
      var t2 := GetOrCreate(t1, Front(p)).value.0;
      assert GetOrCreate(t, p) == Some((SetChild(t2, f2[Front(p)], Last(p), id, true), id));
      CreatedDirShape(t, f, dirs, p, t1, id, t2, f2, dirs2);
      CreatedDirLinks(t, p, t1, id, t2, f2, dirs2, x);
    }
  }

  lemma {:induction false} NewNodeLinks(t: Tree, f: map<Path, Id>, dirs: set<Path>, a: Attr, links: int, x: Path -> int)
    requires DirLinks(t, f, dirs, x) && t.cur < MAX_ID && t.cur + 1 !in t.nodes
    ensures DirLinks(NewNode(t, a, links).value.0, f, dirs, x)
  {
    var t1 := NewNode(t, a, links).value.0;
    forall p | p in dirs ensures DirLinkOk(t1, f, dirs, x, p) {
      assert DirLinkOk(t, f, dirs, x, p);
    }
  }

  lemma {:induction false} DirIdsGrow(f: map<Path, Id>, dirs: set<Path>, p: Path, id: Id)
    requires p !in f && dirs <= f.Keys
    ensures DirIds(f[p := id], dirs + {p}) == DirIds(f, dirs) + {id}
  {
    var f', dirs' := f[p := id], dirs + {p};
    forall d | d in DirIds(f, dirs) ensures d in DirIds(f', dirs') {
      var q :| q in dirs && q in f && f[q] == d;
      assert q in dirs' && f'[q] == d;
    }
    assert p in dirs' && f'[p] == id;
  }

  lemma {:induction false} FiledDirLinks(t1: Tree, p: Path, id: Id, t2: Tree, f2: map<Path, Id>, dirs2: set<Path>,
        x: Path -> int)
    requires p != [] && p !in f2 && x(p) == 0 && id in t1.nodes && t1.nodes[id].links == 1 && Unused(f2, id)
    requires Shape(t2, f2, dirs2) && Front(p) in dirs2
    requires DirLinks(t2, f2, dirs2, x) && LinksKept(t1, t2, DirIds(f2, dirs2))
    ensures var t3 := SetChild(t2, f2[Front(p)], Last(p), id, true);
            DirLinks(t3, f2[p := id], dirs2 + {p}, x) && LinksKept(t1, t3, DirIds(f2[p := id], dirs2 + {p}))
  {
    assert id !in DirIds(f2, dirs2);
    NothingBelow(t2, f2, dirs2, p);
    SetChildDirLinks(t2, f2, dirs2, p, id, x);
    DirIdsGrow(f2, dirs2, p, id);
    assert f2[Front(p)] in DirIds(f2, dirs2);
  }

  lemma {:induction false} CreatedDirLinks(t: Tree, p: Path, t1: Tree, id: Id, t2: Tree, f2: map<Path, Id>,
        dirs2: set<Path>, x: Path -> int)
    requires NewNode(t, IMPLICIT_DIR, 1) == Some((t1, id)) && t.cur + 1 !in t.nodes
    requires p != [] && p !in f2 && x(p) == 0 && Unused(f2, id)
    requires Shape(t2, f2, dirs2) && Front(p) in dirs2
    requires DirLinks(t2, f2, dirs2, x) && LinksKept(t1, t2, DirIds(f2, dirs2))
    ensures var t3 := SetChild(t2, f2[Front(p)], Last(p), id, true);
            DirLinks(t3, f2[p := id], dirs2 + {p}, x) && LinksKept(t, t3, DirIds(f2[p := id], dirs2 + {p}))
  {
    assert t1.nodes[id].links == 1;
    FiledDirLinks(t1, p, id, t2, f2, dirs2, x);
  }

  // ----------------------------------------------------------- one entry

  ghost predicate FileLinks(t: Tree, es: seq<Entry>, f: map<Path, Id>) {
    forall i {:trigger FileLinkOk(t, es, f, es[i].PathOf())} | 0 <= i < |es| && es[i].kind.Other? ::
      FileLinkOk(t, es, f, es[i].PathOf())
  }

  ghost predicate FileLinkOk(t: Tree, es: seq<Entry>, f: map<Path, Id>, p: Path) {
    p in f && f[p] in t.nodes && t.nodes[f[p]].links == HardlinksTo(es, f, f[p])
  }

  ghost predicate LinksOk(t: Tree, es: seq<Entry>, f: map<Path, Id>, dirs: set<Path>) {
    DirLinks(t, f, dirs, Excess(es)) && FileLinks(t, es, f)
  }

  /** Hardlinks are counted by the paths an entry list knows. */
  lemma {:induction false} HardlinksToSame(es: seq<Entry>, f: map<Path, Id>, f': map<Path, Id>, id: Id)
    requires forall i | 0 <= i < |es| && es[i].kind.Hardlink? ::
      es[i].PathOf() in f && es[i].PathOf() in f' && f'[es[i].PathOf()] == f[es[i].PathOf()]
    ensures HardlinksTo(es, f', id) == HardlinksTo(es, f, id)
  {
    if es != [] {
      HardlinksToSame(es[..|es| - 1], f, f', id);
    }
  }

  lemma {:induction false} HardlinksToNobody(es: seq<Entry>, f: map<Path, Id>, id: Id)
    requires forall p | p in f :: f[p] != id
    ensures HardlinksTo(es, f, id) == 0
  {
    if es != [] {
      HardlinksToNobody(es[..|es| - 1], f, id);
    }
  }

  lemma {:induction false} LateBelowInToc(es: seq<Entry>, p: Path)
    requires p !in TocPaths(es)
    ensures LateBelow(es, p) == 0
  {
    if es != [] {
      var before, e := es[..|es| - 1], es[|es| - 1];
      LateBelowInToc(before, p);
      if e.PathOf() != [] {
        NotAboveItself(e.PathOf());
      }
    }
  }

  lemma {:induction false} LateBelowSnoc(es: seq<Entry>, e: Entry)
    ensures forall p ::
              LateBelow(es + [e], p) == LateBelow(es, p) + (if Late(es, e) && ParentOf(e.PathOf()) == p then 1 else 0)
  {
    assert (es + [e])[..|es|] == es;
  }

  lemma {:induction false} HardlinksToSnoc(es: seq<Entry>, e: Entry, f: map<Path, Id>, id: Id)
    ensures HardlinksTo(es + [e], f, id) ==
      HardlinksTo(es, f, id) + (if e.kind.Hardlink? && e.PathOf() in f && f[e.PathOf()] == id then 1 else 0)
  {
    assert (es + [e])[..|es|] == es;
  }

  // ------------------------------------------------ filing with link counts

  /** Filing an entry's node, with link counts: the parents' counts stay right, files keep theirs. */
  lemma {:induction false} FileWithLinks(t1: Tree, f: map<Path, Id>, dirs: set<Path>, p: Path, id: Id,
        isDir: bool, x: Path -> int)
    returns (f': map<Path, Id>, dirs': set<Path>)
    requires Shape(t1, f, dirs) && DirLinks(t1, f, dirs, x) && p != [] && p !in f && "." !in p
    requires Fileable(t1, f, dirs, p, id, isDir)
    requires isDir ==> t1.nodes[id].links == 1
    requires Prefixes(Front(p)) * f.Keys <= dirs
    requires forall q :: q !in f ==> x(q) == 0
    requires GetOrCreate(t1, Front(p)).Some?
    ensures var (t2, parent) := GetOrCreate(t1, Front(p)).value;
            var t3 := SetChild(t2, parent, Last(p), id, isDir);
            && Shape(t3, f', dirs') && FiledAt(t1, f, dirs, t3, f', dirs', p, id, isDir)
            && DirLinks(t3, f', dirs', x) && LinksKept(t1, t3, DirIds(f', dirs'))
  {
    var f2, dirs2 := GetOrCreateLinks(t1, f, dirs, Front(p), x);
    var t2 := GetOrCreate(t1, Front(p)).value.0;
    f' := f2[p := id];
    dirs' := if isDir then dirs2 + {p} else dirs2;
    FileableAfterParents(t1, f, dirs, t2, f2, dirs2, p, id, isDir);
    FiledAtFromGrown(t1, f, dirs, t2, f2, dirs2, p, id, isDir);
    NotAboveItself(p);
    SetChildShape(t2, f2, dirs2, p, id, isDir);
    if isDir {
      FiledDirLinks(t1, p, id, t2, f2, dirs2, x);
    } else {
      FiledFileLinks(t1, p, id, t2, f2, dirs2, x);
    }
  }

  lemma {:induction false} FiledFileLinks(t1: Tree, p: Path, id: Id, t2: Tree, f2: map<Path, Id>,
        dirs2: set<Path>, x: Path -> int)
    requires p != [] && p !in f2 && dirs2 <= f2.Keys && Front(p) in dirs2
    requires DirLinks(t2, f2, dirs2, x) && LinksKept(t1, t2, DirIds(f2, dirs2))
    ensures var t3 := SetChild(t2, f2[Front(p)], Last(p), id, false);
            DirLinks(t3, f2[p := id], dirs2, x) && LinksKept(t1, t3, DirIds(f2[p := id], dirs2))
  {
    var f3 := f2[p := id];
    forall q | q in dirs2 ensures f3[q] == f2[q] {
      assert q != p;
    }
    assert DirIds(f3, dirs2) == DirIds(f2, dirs2);
    var t3 := SetChild(t2, f2[Front(p)], Last(p), id, false);
    forall q | q in dirs2 ensures DirLinkOk(t3, f3, dirs2, x, q) {
      assert DirLinkOk(t2, f2, dirs2, x, q);
    }
  }

  // ------------------------------------------------ counts entry by entry

  /** A file is not one of the directories after something was filed. */
  lemma {:induction false} FileNotDir(t3: Tree, es: seq<Entry>, e: Entry, f': map<Path, Id>, dirs': set<Path>, p: Path)
    requires DirsDistinct(t3, f', dirs') && SamePaths(es, f', dirs') && p in FilePaths(es) && p in f'
    ensures f'[p] !in DirIds(f', dirs')
  {
    assert p !in dirs';
  }

  lemma {:induction false} OtherIsFile(es: seq<Entry>, i: nat)
    requires i < |es| && es[i].kind.Other?
    ensures es[i].PathOf() in FilePaths(es) && es[i].PathOf() in TocPaths(es)
  {
    EntryListed(es, i);
    KindsOfPaths(es);
  }

  /** Counts of hardlinks to old files after an entry was filed. */
  lemma {:induction false} OldFileLinks(t: Tree, es: seq<Entry>, f: map<Path, Id>, e: Entry, t1: Tree, t3: Tree,
        f': map<Path, Id>, dirs': set<Path>, linked: Option<Id>, i: nat)
    requires FileLinks(t, es, f) && EntriesShown(t, es, f) && i < |es| && es[i].kind.Other?
    requires DirsDistinct(t3, f', dirs') && SamePaths(es + [e], f', dirs') && e.PathOf() in f'
    requires forall q | q in f :: q in f' && f'[q] == f[q]
    requires forall d | d in t.nodes ::
               d in t1.nodes && t1.nodes[d].links == t.nodes[d].links + (if Some(d) == linked then 1 else 0)
    requires LinksKept(t1, t3, DirIds(f', dirs'))
    requires linked == if e.kind.Hardlink? then Some(f'[e.PathOf()]) else None
    ensures FileLinkOk(t3, es + [e], f', es[i].PathOf())
  {
    var p := es[i].PathOf();
    assert FileLinkOk(t, es, f, p);
    assert (es + [e])[i] == es[i];
    OtherIsFile(es + [e], i);
    FileNotDir(t3, es + [e], e, f', dirs', p);
    HardlinksToSnoc(es, e, f', f[p]);
    forall j | 0 <= j < |es| && es[j].kind.Hardlink?
      ensures es[j].PathOf() in f && es[j].PathOf() in f' && f'[es[j].PathOf()] == f[es[j].PathOf()]
    {
      assert SharesTarget(f, es[j]);
    }
    HardlinksToSame(es, f, f', f[p]);
  }

  lemma {:induction false} LinksSnoc(t3: Tree, t4: Tree, es: seq<Entry>, e: Entry, f': map<Path, Id>)
    requires t4.nodes == t3.nodes
    requires forall i | 0 <= i < |es| && es[i].kind.Other? :: FileLinkOk(t3, es + [e], f', es[i].PathOf())
    requires e.kind.Other? ==> FileLinkOk(t3, es + [e], f', e.PathOf())
    ensures FileLinks(t4, es + [e], f')
  {
    var all := es + [e];
    forall i | 0 <= i < |all| && all[i].kind.Other? ensures FileLinkOk(t4, all, f', all[i].PathOf()) {
      if i < |es| { assert FileLinkOk(t3, all, f', es[i].PathOf()); }
    }
  }

  /** The link to be made up for by late entries does not concern new directories. */
  lemma {:induction false} LateOutsideIsZero(es: seq<Entry>, f: map<Path, Id>, dirs: set<Path>)
    requires SamePaths(es, f, dirs)
    ensures forall q :: q !in f ==> LateBelow(es, q) == 0
  {
    forall q | q !in f ensures LateBelow(es, q) == 0 {
      LateBelowInToc(es, q);
    }
  }

  lemma {:induction false} DirLinksSame(t: Tree, t': Tree, f: map<Path, Id>, dirs: set<Path>, x: Path -> int,
        y: Path -> int)
    requires DirLinks(t, f, dirs, x) && t'.nodes == t.nodes && forall p :: x(p) == y(p)
    ensures DirLinks(t', f, dirs, y)
  {
    forall p | p in dirs ensures DirLinkOk(t', f, dirs, y, p) {
      assert DirLinkOk(t, f, dirs, x, p);
    }
  }

  /** An entry at a new path, hardlinks aside. */
  lemma {:induction false} FreshEntryLinks(t: Tree, es: seq<Entry>, f: map<Path, Id>, dirs: set<Path>, e: Entry)
    returns (f': map<Path, Id>, dirs': set<Path>)
    requires Agrees(t, es, f, dirs) && LinksOk(t, es, f, dirs) && WellFormed(es + [e]) && AddEntry(t, e).Some?
    requires !e.kind.Hardlink? && e.PathOf() !in f
    ensures Shape(AddEntry(t, e).value, f', dirs') && SamePaths(es + [e], f', dirs')
    ensures LinksOk(AddEntry(t, e).value, es + [e], f', dirs')
  {
    var x := Excess(es);
    var t1, id := FreshEntryTree(t, es, f, dirs, e);
    LateOutsideIsZero(es, f, dirs);
    NewNodeLinks(t, f, dirs, e.AttrOf(), if e.kind.Dir? then 1 else 0, x);
    f', dirs' := FileWithLinks(t1, f, dirs, e.PathOf(), id, e.kind.Dir?, x);
    var t3 := FiledTree(t1, e, id);
    SamePathsSnoc(es, e, t1, f, dirs, t3, f', dirs', id);
    FreshEntryCounts(t, es, f, dirs, e, t1, id, t3, f', dirs');
    SameSkeletonShape(t3, AddEntry(t, e).value, f', dirs');
  }

  lemma {:induction false} FreshEntryCounts(t: Tree, es: seq<Entry>, f: map<Path, Id>, dirs: set<Path>, e: Entry,
        t1: Tree, id: Id, t3: Tree, f': map<Path, Id>, dirs': set<Path>)
    requires FileLinks(t, es, f) && EntriesShown(t, es, f) && Numbered(t, f) && SamePaths(es, f, dirs)
    requires e.PathOf() != [] && e.PathOf() !in f && !e.kind.Hardlink?
    requires NewNode(t, e.AttrOf(), if e.kind.Dir? then 1 else 0) == Some((t1, id))
    requires DirsDistinct(t3, f', dirs') && SamePaths(es + [e], f', dirs')
    requires FiledAt(t1, f, dirs, t3, f', dirs', e.PathOf(), id, e.kind.Dir?)
    requires DirLinks(t3, f', dirs', Excess(es)) && LinksKept(t1, t3, DirIds(f', dirs'))
    ensures LinksOk(t3.(info := t3.info[id := e.InfoOf()]), es + [e], f', dirs')
  {
    var t4 := t3.(info := t3.info[id := e.InfoOf()]);
    assert !Late(es, e);
    TimelyDirLinks(es, e, f', dirs', t3, t4);
    forall i | 0 <= i < |es| && es[i].kind.Other? ensures FileLinkOk(t3, es + [e], f', es[i].PathOf()) {
      OldFileLinks(t, es, f, e, t1, t3, f', dirs', None, i);
    }
    if e.kind.Other? {
      NewFileLinks(t, es, f, dirs, e, t1, id, t3, f', dirs');
    }
    LinksSnoc(t3, t4, es, e, f');
  }

  /** An entry that is not late leaves the excess as it was. */
  lemma {:induction false} TimelyDirLinks(es: seq<Entry>, e: Entry, f': map<Path, Id>, dirs': set<Path>, t3: Tree,
        t4: Tree)
    requires !Late(es, e) && DirLinks(t3, f', dirs', Excess(es)) && t4.nodes == t3.nodes
    ensures DirLinks(t4, f', dirs', Excess(es + [e]))
  {
    LateBelowSnoc(es, e);
    DirLinksSame(t3, t4, f', dirs', Excess(es), Excess(es + [e]));
  }

  /** A new file has the one link it is filed under. */
  lemma {:induction false} NewFileLinks(t: Tree, es: seq<Entry>, f: map<Path, Id>, dirs: set<Path>, e: Entry,
        t1: Tree, id: Id, t3: Tree, f': map<Path, Id>, dirs': set<Path>)
    requires EntriesShown(t, es, f) && Numbered(t, f) && e.kind.Other?
    requires NewNode(t, e.AttrOf(), 0) == Some((t1, id))
    requires DirsDistinct(t3, f', dirs') && SamePaths(es + [e], f', dirs')
    requires FiledAt(t1, f, dirs, t3, f', dirs', e.PathOf(), id, false)
    requires LinksKept(t1, t3, DirIds(f', dirs'))
    ensures FileLinkOk(t3, es + [e], f', e.PathOf())
  {
    assert (es + [e])[|es|] == e;
    OtherIsFile(es + [e], |es|);
    FileNotDir(t3, es + [e], e, f', dirs', e.PathOf());
    NewFileUnlinked(es, e, t, f, t1, id, f');
  }

  lemma {:induction false} NewFileUnlinked(es: seq<Entry>, e: Entry, t: Tree, f: map<Path, Id>, t1: Tree, id: Id,
        f': map<Path, Id>)
    requires EntriesShown(t, es, f) && Numbered(t, f) && t.cur < id && !e.kind.Hardlink?
    requires forall q | q in f :: q in f' && f'[q] == f[q]
    ensures HardlinksTo(es + [e], f', id) == 0
  {
    HardlinksToSnoc(es, e, f', id);
    forall j | 0 <= j < |es| && es[j].kind.Hardlink?
      ensures es[j].PathOf() in f && es[j].PathOf() in f' && f'[es[j].PathOf()] == f[es[j].PathOf()]
    {
      assert SharesTarget(f, es[j]);
    }
    HardlinksToSame(es, f, f', id);
    forall q | q in f ensures f[q] != id {
      assert f[q] in t.nodes;
    }
    HardlinksToNobody(es, f, id);
  }

  /** A hardlink adds one to the count of its target's node. */
  lemma {:induction false} LinkedNodeLinks(t: Tree, f: map<Path, Id>, dirs: set<Path>, q: Path, x: Path -> int)
    requires DirLinks(t, f, dirs, x) && DirsDistinct(t, f, dirs) && q in f && q !in dirs && f[q] in t.nodes
    ensures DirLinks(AddLink(t, f[q]), f, dirs, x)
  {
    forall p | p in dirs ensures DirLinkOk(AddLink(t, f[q]), f, dirs, x, p) {
      assert DirLinkOk(t, f, dirs, x, p);
    }
  }

  lemma {:induction false} LinkEntryLinks(t: Tree, es: seq<Entry>, f: map<Path, Id>, dirs: set<Path>, e: Entry)
    returns (f': map<Path, Id>, dirs': set<Path>)
    requires Agrees(t, es, f, dirs) && LinksOk(t, es, f, dirs) && WellFormed(es + [e]) && AddEntry(t, e).Some?
    requires e.kind.Hardlink?
    ensures Shape(AddEntry(t, e).value, f', dirs') && SamePaths(es + [e], f', dirs')
    ensures LinksOk(AddEntry(t, e).value, es + [e], f', dirs')
  {
    var x := Excess(es);
    LinkFileable(t, es, f, dirs, e);
    TargetNotAbove(es, e);
    ParentsAreDirs(es, e, f, dirs);
    LateOutsideIsZero(es, f, dirs);
    var id := f[e.Target()];
    LinkedNodeLinks(t, f, dirs, e.Target(), x);
    f', dirs' := FileWithLinks(AddLink(t, id), f, dirs, e.PathOf(), id, false, x);
    var t3 := FiledTree(AddLink(t, id), e, id);
    assert AddEntry(t, e) == Some(t3);
    SamePathsSnoc(es, e, AddLink(t, id), f, dirs, t3, f', dirs', id);
    LinkEntryCounts(t, es, f, dirs, e, AddLink(t, id), id, t3, f', dirs');
  }

  lemma {:induction false} LinkEntryCounts(t: Tree, es: seq<Entry>, f: map<Path, Id>, dirs: set<Path>, e: Entry,
        t1: Tree, id: Id, t3: Tree, f': map<Path, Id>, dirs': set<Path>)
    requires FileLinks(t, es, f) && EntriesShown(t, es, f) && id in t.nodes && t1 == AddLink(t, id)
    requires e.PathOf() != [] && e.kind.Hardlink?
    requires DirsDistinct(t3, f', dirs') && SamePaths(es + [e], f', dirs')
    requires FiledAt(t1, f, dirs, t3, f', dirs', e.PathOf(), id, false)
    requires DirLinks(t3, f', dirs', Excess(es)) && LinksKept(t1, t3, DirIds(f', dirs'))
    ensures LinksOk(t3, es + [e], f', dirs')
  {
    TimelyDirLinks(es, e, f', dirs', t3, t3);
    forall i | 0 <= i < |es| && es[i].kind.Other? ensures FileLinkOk(t3, es + [e], f', es[i].PathOf()) {
      OldFileLinks(t, es, f, e, t1, t3, f', dirs', Some(id), i);
    }
    LinksSnoc(t3, t3, es, e, f');
  }

  /** A directory entry for an existing path counts itself at its parent once more. */
  lemma {:induction false} LateDirLinks(t: Tree, es: seq<Entry>, f: map<Path, Id>, dirs: set<Path>, e: Entry)
    requires Agrees(t, es, f, dirs) && LinksOk(t, es, f, dirs) && WellFormed(es + [e]) && e.kind.Dir? && e.PathOf() in f
    ensures AddEntry(t, e).Some? && LinksOk(AddEntry(t, e).value, es + [e], f, dirs)
  {
    var t3;
    if e.PathOf() == [] {
      t3 := RootEntryTree(t, es, f, dirs, e);
    } else {
      t3 := LateDirTree(t, es, f, dirs, e);
      EntrySnoc(es, e);
      assert FiledUnder(t, f, dirs, e.PathOf());
    }
    var t4 := AddEntry(t, e).value;
    assert t4.nodes == t3.nodes;
    LateDirCounts(t, es, f, dirs, e, t3, t4);
  }

  /** `t'` differs from `t` in one more link to the parent of `e`. */
  predicate CountedAtParent(t: Tree, f: map<Path, Id>, e: Entry, t': Tree) {
    && t'.nodes.Keys == t.nodes.Keys && ParentOf(e.PathOf()) in f
    && (forall d | d in t.nodes ::
          t'.nodes[d].links == t.nodes[d].links + if d == f[ParentOf(e.PathOf())] then 1 else 0)
  }

  lemma {:induction false} LateDirCounts(t: Tree, es: seq<Entry>, f: map<Path, Id>, dirs: set<Path>, e: Entry,
        t3: Tree, t4: Tree)
    requires LinksOk(t, es, f, dirs) && DirsDistinct(t, f, dirs) && SamePaths(es, f, dirs)
    requires e.kind.Dir? && e.PathOf() in TocPaths(es) && ParentOf(e.PathOf()) in dirs
    requires CountedAtParent(t, f, e, t3) && t4.nodes == t3.nodes
    ensures LinksOk(t4, es + [e], f, dirs)
  {
    LateDirDirCounts(t, es, f, dirs, e, t3);
    LateDirFileCounts(t, es, f, dirs, e, t3);
    DirLinksSame(t3, t4, f, dirs, Excess(es + [e]), Excess(es + [e]));
    LinksSnoc(t3, t4, es, e, f);
  }

  lemma {:induction false} LateDirFileCounts(t: Tree, es: seq<Entry>, f: map<Path, Id>, dirs: set<Path>, e: Entry,
        t3: Tree)
    requires FileLinks(t, es, f) && DirsDistinct(t, f, dirs) && SamePaths(es, f, dirs)
    requires e.kind.Dir? && ParentOf(e.PathOf()) in dirs && CountedAtParent(t, f, e, t3)
    ensures forall i | 0 <= i < |es| && es[i].kind.Other? :: FileLinkOk(t3, es + [e], f, es[i].PathOf())
  {
    forall i | 0 <= i < |es| && es[i].kind.Other? ensures FileLinkOk(t3, es + [e], f, es[i].PathOf()) {
      assert FileLinkOk(t, es, f, es[i].PathOf());
      OtherIsFile(es, i);
      FileNotDir(t, es, e, f, dirs, es[i].PathOf());
      assert f[ParentOf(e.PathOf())] in DirIds(f, dirs);
      HardlinksToSnoc(es, e, f, f[es[i].PathOf()]);
    }
  }

  lemma {:induction false} LateDirDirCounts(t: Tree, es: seq<Entry>, f: map<Path, Id>, dirs: set<Path>, e: Entry,
        t3: Tree)
    requires DirLinks(t, f, dirs, Excess(es)) && DirsDistinct(t, f, dirs)
    requires e.kind.Dir? && e.PathOf() in TocPaths(es) && ParentOf(e.PathOf()) in dirs && CountedAtParent(t, f, e, t3)
    ensures DirLinks(t3, f, dirs, Excess(es + [e]))
  {
    LateBelowSnoc(es, e);
    forall q | q in dirs ensures DirLinkOk(t3, f, dirs, Excess(es + [e]), q) {
      assert DirLinkOk(t, f, dirs, Excess(es), q);
      assert LateBelow(es + [e], q) == LateBelow(es, q) + if ParentOf(e.PathOf()) == q then 1 else 0;
    }
  }

  // -------------------------------------------------------- whole tables

  lemma {:induction false} AddEntryLinks(t: Tree, es: seq<Entry>, f: map<Path, Id>, dirs: set<Path>, e: Entry)
    returns (f': map<Path, Id>, dirs': set<Path>)
    requires Agrees(t, es, f, dirs) && LinksOk(t, es, f, dirs) && WellFormed(es + [e]) && AddEntry(t, e).Some?
    ensures Agrees(AddEntry(t, e).value, es + [e], f', dirs') && LinksOk(AddEntry(t, e).value, es + [e], f', dirs')
  {
    EntrySnoc(es, e);
    f', dirs' := AddEntryAgrees(t, es, f, dirs, e);
    var g, gdirs;
    if e.kind.Hardlink? {
      g, gdirs := LinkEntryLinks(t, es, f, dirs, e);
    } else if e.PathOf() in f {
      if e.PathOf() == [] { RootEntryAgrees(t, es, f, dirs, e); } else { LateDirAgrees(t, es, f, dirs, e); }
      LateDirLinks(t, es, f, dirs, e);
      g, gdirs := f, dirs;
    } else {
      g, gdirs := FreshEntryLinks(t, es, f, dirs, e);
    }
    ShapeUnique(AddEntry(t, e).value, f', dirs', g, gdirs);
  }

  lemma {:induction false} BuildLinks(es: seq<Entry>, t: Tree) returns (f: map<Path, Id>, dirs: set<Path>)
    requires WellFormed(es) && Build(EmptyTree(), es) == Some(t)
    ensures Agrees(t, es, f, dirs) && LinksOk(t, es, f, dirs)
    decreases |es|
  {
    if es == [] {
      EmptyTreeAgrees();
      f, dirs := map[[] := ROOT], {[]};
      assert KidDirs(dirs, []) == {};
      assert DirLinkOk(EmptyTree(), f, dirs, Excess(es), []);
    } else {
      var front, e := es[..|es| - 1], es[|es| - 1];
      assert front + [e] == es;
      f, dirs := BuildLinks(front, Build(EmptyTree(), front).value);
      f, dirs := AddEntryLinks(Build(EmptyTree(), front).value, front, f, dirs, e);
    }
  }

  // ------------------------------------------------------- main theorems

  /** The directories of the table: everything that is not listed as something else. */
  function DirPaths(es: seq<Entry>): set<Path> {
    TocPaths(es) - FilePaths(es)
  }

  function NumLinkAt(t: Tree, p: Path): Option<int> {
    match Lookup(t, p)
    case None => None
    case Some(id) => if id in t.nodes then Some(NumLink(t.nodes[id])) else None
  }

  predicate DirSeen(t: Tree, dirs: set<Path>, x: Path -> int, p: Path) {
    NumLinkAt(t, p) == Some(2 + |KidDirs(dirs, p)| + x(p))
  }

  lemma {:induction false} DirLinksSeen(t: Tree, f: map<Path, Id>, dirs: set<Path>, x: Path -> int, p: Path)
    requires Shape(t, f, dirs) && DirLinks(t, f, dirs, x) && p in dirs
    ensures DirSeen(t, dirs, x, p)
  {
    LookupIsF(t, f, dirs, p);
    assert DirLinkOk(t, f, dirs, x, p);
  }

  lemma {:induction false} BuiltDirLinks(es: seq<Entry>, t: Tree, p: Path) returns (dirs: set<Path>)
    requires WellFormed(es) && Build(EmptyTree(), es) == Some(t) && p in DirPaths(es)
    ensures dirs == DirPaths(es) && DirSeen(t, dirs, Excess(es), p)
  {
    var f;
    f, dirs := BuildLinks(es, t);
    DirLinksSeen(t, f, dirs, Excess(es), p);
  }

  /** A directory has two links and one for every child directory, and one more for each child
      directory that is listed only after something below it. */
  lemma {:induction false} DirectoryLinkCount(es: seq<Entry>, t: Tree, p: Path)
    requires WellFormed(es) && Build(EmptyTree(), es) == Some(t) && p in DirPaths(es)
    ensures NumLinkAt(t, p) == Some(2 + |KidDirs(DirPaths(es), p)| + LateBelow(es, p))
  {
    var dirs := BuiltDirLinks(es, t, p);
  }

  predicate ParentsFirst(es: seq<Entry>) {
    forall i :: 0 <= i < |es| ==> !Late(es[..i], es[i])
  }

  lemma {:induction false} NoneLate(es: seq<Entry>, p: Path)
    requires ParentsFirst(es)
    ensures LateBelow(es, p) == 0
  {
    if es != [] {
      var before := es[..|es| - 1];
      forall i | 0 <= i < |before| ensures !Late(before[..i], before[i]) {
        assert before[..i] == es[..i];
      }
      NoneLate(before, p);
    }
  }

  lemma {:induction false} LateCounted(es: seq<Entry>, i: nat)
    requires i < |es| && Late(es[..i], es[i])
    ensures LateBelow(es, ParentOf(es[i].PathOf())) > 0
  {
    if i < |es| - 1 {
      assert es[..|es| - 1][..i] == es[..i];
      LateCounted(es[..|es| - 1], i);
    }
  }

  /** The parent of an entry is a directory of the table. */
  lemma {:induction false} ParentInTable(es: seq<Entry>, i: nat)
    requires WellFormed(es) && i < |es|
    ensures ParentOf(es[i].PathOf()) in DirPaths(es)
  {
    var before, e := es[..|es| - 1], es[|es| - 1];
    KindsOfPaths(before);
    if i < |es| - 1 {
      ParentInTable(before, i);
    } else if e.PathOf() != [] {
      NotAboveItself(e.PathOf());
    } else {
      RootIsDir(before);
    }
  }

  lemma {:induction false} RootIsDir(es: seq<Entry>)
    requires WellFormed(es)
    ensures [] in DirPaths(es)
  {
    if es != [] {
      RootIsDir(es[..|es| - 1]);
    }
  }

  /** The link counts of all directories are two plus their child directories exactly when no
      directory entry comes after something below it and none lists the root. */
  lemma {:induction false} DirectoryCountsRightIffParentsFirst(es: seq<Entry>, t: Tree)
    requires WellFormed(es) && Build(EmptyTree(), es) == Some(t)
    ensures (forall p | p in DirPaths(es) :: NumLinkAt(t, p) == Some(2 + |KidDirs(DirPaths(es), p)|))
      <==> ParentsFirst(es)
  {
    forall p | p in DirPaths(es)
      ensures NumLinkAt(t, p) == Some(2 + |KidDirs(DirPaths(es), p)|) <==> LateBelow(es, p) == 0
    {
      DirectoryLinkCount(es, t, p);
    }
    if ParentsFirst(es) {
      forall p ensures LateBelow(es, p) == 0 { NoneLate(es, p); }
    } else {
      var i :| 0 <= i < |es| && Late(es[..i], es[i]);
      ParentInTable(es, i);
      LateCounted(es, i);
    }
  }

  /** A file two levels down, and the directory it is in. */
  predicate FileAndItsDir(file: Entry, dir: Entry) {
    file.kind.Other? && dir.kind.Dir? && |file.PathOf()| == 2 && dir.PathOf() == Front(file.PathOf())
  }

  lemma {:induction false} FileAndItsDirPaths(file: Entry, dir: Entry)
    requires FileAndItsDir(file, dir)
    ensures var es, d, q := [file, dir], dir.PathOf(), file.PathOf();
            && d != [] && Front(d) == [] && es[..1] == [file] && es[..0] == [] == [file][..0]
            && TocPaths([file]) == TocPaths(es) == {[], d, q} && FilePaths([file]) == FilePaths(es) == {q}
            && LinkPaths(es) == {} && EntryPaths([file]) == {q}
  {
    var d, q := dir.PathOf(), file.PathOf();
    assert [file, dir][..1] == [file] && [file][..0] == [];
    assert Front(d) == [] && Prefixes([]) == {[]} && Prefixes(d) == {[], d} && Prefixes(q) == {[], d, q};
    assert LinkPaths([file]) == {};
  }

  /** Tables with a late directory: when the file is listed first, the root gets four links, with one child
      directory. */
  lemma {:induction false} LateDirectoryCountsTwice(file: Entry, dir: Entry)
    requires FileAndItsDir(file, dir)
    ensures var es := [file, dir];
            && WellFormed(es) && Build(EmptyTree(), es).Some? && KidDirs(DirPaths(es), []) == {dir.PathOf()}
            && NumLinkAt(Build(EmptyTree(), es).value, []) == Some(4)
  {
    var es := [file, dir];
    FileAndItsDirFacts(file, dir);
    NodeIds.BuildSucceedsIffIdsSuffice(es);
    DirectoryLinkCount(es, Build(EmptyTree(), es).value, []);
  }

  lemma {:induction false} FileAndItsDirFacts(file: Entry, dir: Entry)
    requires FileAndItsDir(file, dir)
    ensures var es := [file, dir];
            && WellFormed(es) && KidDirs(DirPaths(es), []) == {dir.PathOf()} && LateBelow(es, []) == 1
            && [] in DirPaths(es) && |NodeIds.OwnedPaths(es)| <= 3
  {
    FileAndItsDirPaths(file, dir);
    assert WellFormed([]) && WellFormed([file]);
    assert KidDirs(DirPaths([file, dir]), []) == {dir.PathOf()};
    assert LateBelow([], []) == 0 && LateBelow([file], []) == 0;
  }

  /** Such a table: "a/f", then "a". */
  lemma {:induction false} LateDirectoryExample()
    ensures var file := Entry("a/f", "", Other(0), 0, 0, 0, 0, 0, 0, 0, map[], 0, 0);
            FileAndItsDir(file, file.(name := "a", kind := Dir))
  {
    ComponentsOfJoin(["a", "f"]);
    ComponentsOfJoin(["a"]);
    assert Join(["a", "f"]) == "a/f" && Join(["a"]) == "a";
    assert Front(["a", "f"]) == ["a"];
  }

  // ------------------------------------------------------ hardlinked files

  /** The path of the file a path stands for, following hardlinks back through the table. */
  function Original(es: seq<Entry>, q: Path): Path {
    if es == [] then q
    else
      var e := es[|es| - 1];
      Original(es[..|es| - 1], if e.PathOf() == q && e.kind.Hardlink? then e.Target() else q)
  }

  /** How many of the entries `es` are hardlinks that stand for the file at `p` of the table `all`. */
  function LinksTo(all: seq<Entry>, es: seq<Entry>, p: Path): nat {
    if es == [] then 0
    else
      var e := es[|es| - 1];
      LinksTo(all, es[..|es| - 1], p) + (if e.kind.Hardlink? && Original(all, e.PathOf()) == p then 1 else 0)
  }

  /** A path and its original share a node, and the original is no hardlink. */
  lemma {:induction false} OriginalSharesNode(es: seq<Entry>, f: map<Path, Id>, q: Path)
    requires WellFormed(es) && q in FilePaths(es) && FilePaths(es) <= f.Keys
    requires LinksShared(es, f)
    ensures Original(es, q) in FilePaths(es) - LinkPaths(es) && f[q] == f[Original(es, q)]
  {
    var before, e := es[..|es| - 1], es[|es| - 1];
    KindsOfPaths(before);
    assert LinksShared(before, f) by {
      forall i | 0 <= i < |before| && before[i].kind.Hardlink? ensures SharesTarget(f, before[i]) {
        assert SharesTarget(f, es[i]);
      }
    }
    if e.PathOf() == q && e.kind.Hardlink? {
      assert SharesTarget(f, es[|es| - 1]);
      OriginalSharesNode(before, f, e.Target());
    } else if e.PathOf() == q {
      OriginalOfNew(before, q);
    } else {
      OriginalSharesNode(before, f, q);
    }
  }

  /** A path that no entry lists stands for itself. */
  lemma {:induction false} OriginalOfNew(es: seq<Entry>, q: Path)
    requires q !in LinkPaths(es)
    ensures Original(es, q) == q
  {
    if es != [] {
      OriginalOfNew(es[..|es| - 1], q);
    }
  }

  lemma {:induction false} SameCount(all: seq<Entry>, n: nat, f: map<Path, Id>, p: Path)
    requires n <= |all| && WellFormed(all) && FilePaths(all) <= f.Keys && OwnNodes(all, f)
    requires LinksShared(all, f)
    requires p in FilePaths(all) - LinkPaths(all)
    ensures HardlinksTo(all[..n], f, f[p]) == LinksTo(all, all[..n], p)
  {
    if n > 0 {
      SameCount(all, n - 1, f, p);
      assert all[..n][..n - 1] == all[..n - 1];
      var e := all[n - 1];
      if e.kind.Hardlink? {
        EntryListed(all, n - 1);
        OriginalSharesNode(all, f, e.PathOf());
      }
    }
  }

  lemma {:induction false} OtherIsNoLink(es: seq<Entry>, i: nat)
    requires WellFormed(es) && i < |es| && es[i].kind.Other?
    ensures es[i].PathOf() in FilePaths(es) - LinkPaths(es)
  {
    var before := es[..|es| - 1];
    KindsOfPaths(before);
    if i < |es| - 1 {
      OtherIsNoLink(before, i);
      EntryListed(before, i);
    }
  }

  predicate FileSeen(t: Tree, es: seq<Entry>, f: map<Path, Id>, p: Path) {
    p in f && NumLinkAt(t, p) == Some(1 + HardlinksTo(es, f, f[p]))
  }

  lemma {:induction false} FileLinksSeen(t: Tree, es: seq<Entry>, f: map<Path, Id>, dirs: set<Path>, p: Path)
    requires Shape(t, f, dirs) && FileLinkOk(t, es, f, p)
    ensures FileSeen(t, es, f, p)
  {
    LookupIsF(t, f, dirs, p);
  }

  lemma {:induction false} BuiltFileLinks(es: seq<Entry>, t: Tree, i: nat) returns (f: map<Path, Id>)
    requires WellFormed(es) && Build(EmptyTree(), es) == Some(t) && i < |es| && es[i].kind.Other?
    ensures FilePaths(es) <= f.Keys && OwnNodes(es, f) && LinksShared(es, f) && FileSeen(t, es, f, es[i].PathOf())
  {
    var dirs;
    f, dirs := BuildLinks(es, t);
    KindsOfPaths(es);
    assert FileLinkOk(t, es, f, es[i].PathOf());
    FileLinksSeen(t, es, f, dirs, es[i].PathOf());
  }

  /** A file has one link and one for every hardlink that stands for it, in whatever chain. */
  lemma {:induction false} FileLinkCount(es: seq<Entry>, t: Tree, i: nat)
    requires WellFormed(es) && Build(EmptyTree(), es) == Some(t) && i < |es| && es[i].kind.Other?
    ensures NumLinkAt(t, es[i].PathOf()) == Some(1 + LinksTo(es, es, es[i].PathOf()))
  {
    var f := BuiltFileLinks(es, t, i);
    OtherIsNoLink(es, i);
    assert HardlinksTo(es, f, f[es[i].PathOf()]) == LinksTo(es, es, es[i].PathOf()) by {
      SameCount(es, |es|, f, es[i].PathOf());
      assert es[..|es|] == es;
    }
  }

  /** Every path of a file, hardlinks included, leads to its original's node. */
  lemma {:induction false} WalkReachesOriginal(es: seq<Entry>, t: Tree, q: Path, r: Path)
    requires WellFormed(es) && Build(EmptyTree(), es) == Some(t) && q in FilePaths(es) && r in FilePaths(es)
    ensures Lookup(t, q) == Lookup(t, r) <==> Original(es, q) == Original(es, r)
  {
    var f, dirs := BuildAgrees(es, t);
    KindsOfPaths(es);
    LookupIsF(t, f, dirs, q);
    LookupIsF(t, f, dirs, r);
    OriginalSharesNode(es, f, q);
    OriginalSharesNode(es, f, r);
  }
}
