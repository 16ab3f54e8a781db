/**
 The tree built from a well-formed table of contents agrees with the flat table: which paths exist,
 which node each leads to, and what the nodes say.
 */
module TreeAgreement {
  import opened Base
  import opened Paths
  import opened MetadataTree

  // ------------------------------------------------------ the flat table

  /** The root, the entries, and the directories above them. */
  function TocPaths(es: seq<Entry>): set<Path> {
    if es == [] then {[]} else TocPaths(es[..|es| - 1]) + Prefixes(es[|es| - 1].PathOf())
  }

  function EntryPaths(es: seq<Entry>): set<Path> {
    if es == [] then {} else EntryPaths(es[..|es| - 1]) + {es[|es| - 1].PathOf()}
  }

  /** Everything listed that is not a directory, hardlinks included. */
  function FilePaths(es: seq<Entry>): set<Path> {
    if es == [] then {}
    else FilePaths(es[..|es| - 1]) + (if es[|es| - 1].kind.Dir? then {} else {es[|es| - 1].PathOf()})
  }

  function LinkPaths(es: seq<Entry>): set<Path> {
    if es == [] then {}
    else LinkPaths(es[..|es| - 1]) + (if es[|es| - 1].kind.Hardlink? then {es[|es| - 1].PathOf()} else {})
  }

  /** A new name, parents that are directories, nothing below it unless it is a directory, and, for a
      hardlink, an earlier file to link to. */
  predicate Fits(before: seq<Entry>, e: Entry) {
    && e.PathOf() !in EntryPaths(before)
    && Prefixes(ParentOf(e.PathOf())) !! FilePaths(before)
    && (!e.kind.Dir? ==> e.PathOf() !in TocPaths(before))
    && (e.kind.Hardlink? ==> e.Target() in FilePaths(before))
  }

  predicate WellFormed(es: seq<Entry>) {
    es == [] || (WellFormed(es[..|es| - 1]) && Fits(es[..|es| - 1], es[|es| - 1]))
  }

  // ------------------------------------------------------- the agreement

  predicate Shows(t: Tree, f: map<Path, Id>, e: Entry) {
    && e.PathOf() in f && f[e.PathOf()] in t.nodes && t.nodes[f[e.PathOf()]].attr == e.AttrOf()
    && f[e.PathOf()] in t.info && t.info[f[e.PathOf()]] == e.InfoOf()
  }

  predicate SharesTarget(f: map<Path, Id>, e: Entry) {
    e.PathOf() in f && e.Target() in f && f[e.PathOf()] == f[e.Target()]
  }

  /** The paths of the tree are those of the table. */
  ghost predicate SamePaths(es: seq<Entry>, f: map<Path, Id>, dirs: set<Path>) {
    f.Keys == TocPaths(es) && dirs == TocPaths(es) - FilePaths(es)
  }

  /** Every entry is shown by its node; hardlinks lead to their target's node. */
  ghost predicate EntriesShown(t: Tree, es: seq<Entry>, f: map<Path, Id>) {
    && (forall i {:trigger Shows(t, f, es[i])} :: 0 <= i < |es| && !es[i].kind.Hardlink? ==> Shows(t, f, es[i]))
    && LinksShared(es, f)
  }

  ghost predicate LinksShared(es: seq<Entry>, f: map<Path, Id>) {
    forall i {:trigger SharesTarget(f, es[i])} :: 0 <= i < |es| && es[i].kind.Hardlink? ==> SharesTarget(f, es[i])
  }

  /** Directories no entry lists have default attributes. */
  ghost predicate ImplicitShown(t: Tree, es: seq<Entry>, f: map<Path, Id>) {
    forall q | q in f && q !in EntryPaths(es) :: f[q] in t.nodes && t.nodes[f[q]].attr == IMPLICIT_DIR
  }

  /** Paths other than hardlinks lead to different nodes. */
  ghost predicate OwnNodes(es: seq<Entry>, f: map<Path, Id>) {
    forall q, r {:trigger q in f, r in f} ::
      q in f && r in f && q !in LinkPaths(es) && r !in LinkPaths(es) && f[q] == f[r] ==> q == r
  }

  ghost predicate Agrees(t: Tree, es: seq<Entry>, f: map<Path, Id>, dirs: set<Path>) {
    && Shape(t, f, dirs)
    && SamePaths(es, f, dirs) && EntriesShown(t, es, f) && ImplicitShown(t, es, f) && OwnNodes(es, f)
  }

  // ----------------------------------------------------------- one entry

  lemma {:induction false} NoDotInEntry(e: Entry)
    ensures "." !in e.PathOf() && "." !in e.Target()
  {
    ComponentsNormal(e.name);
    ComponentsNormal(e.linkName);
  }

  lemma {:induction false} EntrySnoc(es: seq<Entry>, e: Entry)
    ensures TocPaths(es + [e]) == TocPaths(es) + Prefixes(e.PathOf())
    ensures EntryPaths(es + [e]) == EntryPaths(es) + {e.PathOf()}
    ensures FilePaths(es + [e]) == FilePaths(es) + (if e.kind.Dir? then {} else {e.PathOf()})
    ensures LinkPaths(es + [e]) == LinkPaths(es) + (if e.kind.Hardlink? then {e.PathOf()} else {})
    ensures WellFormed(es + [e]) <==> WellFormed(es) && Fits(es, e)
  {
    assert (es + [e])[..|es|] == es;
  }

  lemma {:induction false} KindsOfPaths(es: seq<Entry>)
    ensures LinkPaths(es) <= FilePaths(es) <= EntryPaths(es) <= TocPaths(es)
  {
    if es != [] {
      KindsOfPaths(es[..|es| - 1]);
      var p := es[|es| - 1].PathOf();
      assert p in Prefixes(p);
    }
  }

  lemma {:induction false} EntryListed(es: seq<Entry>, i: nat)
    requires i < |es|
    ensures es[i].PathOf() in EntryPaths(es)
    ensures !es[i].kind.Dir? ==> es[i].PathOf() in FilePaths(es)
  {
    if i < |es| - 1 { EntryListed(es[..|es| - 1], i); }
  }

  /** The tree after a new path `p` with node `id` was filed, its missing parents included. */
  ghost predicate FiledAt(t: Tree, f: map<Path, Id>, dirs: set<Path>, t': Tree, f': map<Path, Id>, dirs': set<Path>,
        p: Path, id: Id, isDir: bool) {
    && p != [] && f'.Keys == f.Keys + Prefixes(p)
    && dirs' == dirs + Prefixes(Front(p)) + (if isDir then {p} else {})
    && (forall q | q in f :: f'[q] == f[q])
    && p in f' && f'[p] == id
    && (forall q | q in f' && q !in f && q != p ::
         t.cur < f'[q] && f'[q] in t'.nodes && t'.nodes[f'[q]].attr == IMPLICIT_DIR)
    && (forall d | d in t.nodes :: d in t'.nodes && t'.nodes[d].attr == t.nodes[d].attr)
    && t'.info == t.info
  }

  /** The node to file is new, or it is the node of a file that is not above `p`. */
  ghost predicate Fileable(t: Tree, f: map<Path, Id>, dirs: set<Path>, p: Path, id: Id, isDir: bool) {
    && id in t.nodes
    && ((Unused(f, id) && id !in t.kids && id <= t.cur)
        || (!isDir && exists q :: q in f && q !in dirs && f[q] == id && q !in Prefixes(p)))
  }

  lemma {:induction false} FileableAfterParents(t: Tree, f: map<Path, Id>, dirs: set<Path>, t2: Tree, f2: map<Path, Id>,
        dirs2: set<Path>, p: Path, id: Id, isDir: bool)
    requires Shape(t, f, dirs) && p != [] && Fileable(t, f, dirs, p, id, isDir)
    requires Shape(t2, f2, dirs2) && Grown(t, f, dirs, t2, f2, dirs2, Front(p))
    ensures id in t2.nodes && id !in t2.kids && (isDir ==> Unused(f2, id))
    ensures forall q | q in dirs2 :: f2[q] != id
  {
    NotAboveItself(p);
    if Unused(f, id) && id !in t.kids && id <= t.cur {
      assert Unused(f2, id);
    } else {
      var q :| q in f && q !in dirs && f[q] == id && q !in Prefixes(p);
      assert q in f2 && q !in dirs2;
    }
  }

  lemma {:induction false} FiledAtFromGrown(t: Tree, f: map<Path, Id>, dirs: set<Path>, t2: Tree,
        f2: map<Path, Id>, dirs2: set<Path>, p: Path, id: Id, isDir: bool)
    requires p != [] && p !in f && Grown(t, f, dirs, t2, f2, dirs2, Front(p)) && Front(p) in f2
    ensures FiledAt(t, f, dirs, SetChild(t2, f2[Front(p)], Last(p), id, isDir), f2[p := id],
                    if isDir then dirs2 + {p} else dirs2, p, id, isDir)
  {
    NotAboveItself(p);
    SetChildKids(t2, f2[Front(p)], Last(p), id, isDir);
  }

  /** Filing an entry's node creates the missing parents and adds the entry's path. */
  lemma {:induction false} FileNewPath(t: Tree, f: map<Path, Id>, dirs: set<Path>, p: Path, id: Id, isDir: bool)
    returns (f': map<Path, Id>, dirs': set<Path>)
    requires Shape(t, f, dirs) && p != [] && p !in f && "." !in p && Fileable(t, f, dirs, p, id, isDir)
    requires Prefixes(Front(p)) * f.Keys <= dirs
    requires GetOrCreate(t, Front(p)).Some?
    ensures var (t2, parent) := GetOrCreate(t, Front(p)).value;
            var t3 := SetChild(t2, parent, Last(p), id, isDir);
            Shape(t3, f', dirs') && FiledAt(t, f, dirs, t3, f', dirs', p, id, isDir)
  {
    var f2, dirs2 := GetOrCreateShape(t, f, dirs, Front(p));
    var (t2, parent) := GetOrCreate(t, Front(p)).value;
    FileableAfterParents(t, f, dirs, t2, f2, dirs2, p, id, isDir);
    FiledAtFromGrown(t, f, dirs, t2, f2, dirs2, p, id, isDir);
    NotAboveItself(p);
    SetChildShape(t2, f2, dirs2, p, id, isDir);
    f' := f2[p := id];
    dirs' := if isDir then dirs2 + {p} else dirs2;
  }

  // ------------------------------------------------ agreement step by step

  /** Filing an entry adds its path and the directories above it, as the table does. */
  lemma {:induction false} SamePathsSnoc(es: seq<Entry>, e: Entry, t: Tree, f: map<Path, Id>, dirs: set<Path>, t': Tree,
      f': map<Path, Id>, dirs': set<Path>, id: Id)
    requires WellFormed(es + [e]) && SamePaths(es, f, dirs)
    requires FiledAt(t, f, dirs, t', f', dirs', e.PathOf(), id, e.kind.Dir?)
    ensures SamePaths(es + [e], f', dirs')
  {
    EntrySnoc(es, e);
    NotAboveItself(e.PathOf());
    KindsOfPaths(es);
  }

  /** Old entries and implicit directories are still shown after a new path was filed. */
  lemma {:induction false} OldShown(es: seq<Entry>, e: Entry, t: Tree, f: map<Path, Id>, dirs: set<Path>, t1: Tree,
        t3: Tree, f': map<Path, Id>, dirs': set<Path>, id: Id)
    requires EntriesShown(t, es, f) && ImplicitShown(t, es, f) && t1.info == t.info
    requires forall d | d in t.nodes :: d in t1.nodes && t1.nodes[d].attr == t.nodes[d].attr
    requires FiledAt(t1, f, dirs, t3, f', dirs', e.PathOf(), id, e.kind.Dir?)
    ensures EntriesShown(t3, es, f')
    ensures forall q | q in f' && q !in EntryPaths(es + [e]) ::
        f'[q] in t3.nodes && t3.nodes[f'[q]].attr == IMPLICIT_DIR
  {
    EntrySnoc(es, e);
    forall i | 0 <= i < |es| && !es[i].kind.Hardlink? ensures Shows(t3, f', es[i]) {
      assert Shows(t, f, es[i]);
    }
    forall i | 0 <= i < |es| && es[i].kind.Hardlink? ensures SharesTarget(f', es[i]) {
      assert SharesTarget(f, es[i]);
    }
  }

  lemma {:induction false} OwnNodesSnoc(es: seq<Entry>, e: Entry, t: Tree, f: map<Path, Id>, dirs: set<Path>,
        t1: Tree, t3: Tree, f': map<Path, Id>, dirs': set<Path>, id: Id)
    requires OwnNodes(es, f) && Numbered(t, f) && DirsDistinct(t3, f', dirs')
    requires t.cur <= t1.cur && (e.kind.Hardlink? || t.cur < id <= t1.cur)
    requires FiledAt(t1, f, dirs, t3, f', dirs', e.PathOf(), id, e.kind.Dir?)
    ensures OwnNodes(es + [e], f')
  {
    EntrySnoc(es, e);
    forall q, r | q in f' && r in f' && q !in LinkPaths(es + [e]) && r !in LinkPaths(es + [e]) && f'[q] == f'[r]
      ensures q == r
    {
      assert forall x | x in f :: f[x] in t.nodes && f[x] <= t.cur;
      if q !in f && r !in f && q != e.PathOf() {
        assert q in dirs';
      }
    }
  }

  /** Recording an entry's tar position in its node does not touch other entries. */
  lemma {:induction false} InfoUpdateKeepsShown(es: seq<Entry>, t: Tree, f: map<Path, Id>, id: Id, info: Info)
    requires EntriesShown(t, es, f)
    requires forall i | 0 <= i < |es| && !es[i].kind.Hardlink? :: es[i].PathOf() in f && f[es[i].PathOf()] != id
    ensures EntriesShown(t.(info := t.info[id := info]), es, f)
  {
    var t' := t.(info := t.info[id := info]);
    forall i | 0 <= i < |es| && !es[i].kind.Hardlink? ensures Shows(t', f, es[i]) {
      assert Shows(t, f, es[i]);
    }
  }

  lemma {:induction false} ShownSnoc(es: seq<Entry>, e: Entry, t: Tree, f: map<Path, Id>)
    requires EntriesShown(t, es, f)
    requires if e.kind.Hardlink? then SharesTarget(f, e) else Shows(t, f, e)
    ensures EntriesShown(t, es + [e], f)
  {
    var all := es + [e];
    assert forall i :: 0 <= i < |all| ==> all[i] == if i < |es| then es[i] else e;
  }

  /** The shape only depends on the children maps and on which nodes exist. */
  lemma {:induction false} SameSkeletonShape(t: Tree, t': Tree, f: map<Path, Id>, dirs: set<Path>)
    requires Shape(t, f, dirs) && t'.kids == t.kids && t'.nodes.Keys == t.nodes.Keys && t'.cur == t.cur
    ensures Shape(t', f, dirs)
  {
    assert forall d :: KidsOf(t', d) == KidsOf(t, d);
    SameKidsFiled(t, t', f, dirs);
  }

  /** Nothing above a new entry is a file. */
  lemma {:induction false} ParentsAreDirs(es: seq<Entry>, e: Entry, f: map<Path, Id>, dirs: set<Path>)
    requires WellFormed(es + [e]) && SamePaths(es, f, dirs)
    ensures Prefixes(ParentOf(e.PathOf())) * f.Keys <= dirs
  {
    EntrySnoc(es, e);
  }

  /** The tree after filing node `id` at the path of `e`, in a tree `t1` that already holds the node. */
  function FiledTree(t1: Tree, e: Entry, id: Id): Tree
    requires e.PathOf() != [] && GetOrCreate(t1, Front(e.PathOf())).Some?
  {
    var (t2, parent) := GetOrCreate(t1, Front(e.PathOf())).value;
    SetChild(t2, parent, Last(e.PathOf()), id, e.kind.Dir?)
  }

  /** An entry whose path does not exist yet gets a new node, which can be filed. */
  lemma {:induction false} FreshEntryTree(t: Tree, es: seq<Entry>, f: map<Path, Id>, dirs: set<Path>,
        e: Entry) returns (t1: Tree, id: Id)
    requires Shape(t, f, dirs) && SamePaths(es, f, dirs) && WellFormed(es + [e]) && AddEntry(t, e).Some?
    requires !e.kind.Hardlink? && e.PathOf() !in f
    ensures NewNode(t, e.AttrOf(), if e.kind.Dir? then 1 else 0) == Some((t1, id))
    ensures e.PathOf() != [] && "." !in e.PathOf() && Prefixes(Front(e.PathOf())) * f.Keys <= dirs
    ensures Shape(t1, f, dirs) && Fileable(t1, f, dirs, e.PathOf(), id, e.kind.Dir?)
    ensures GetOrCreate(t1, Front(e.PathOf())).Some?
    ensures var t3 := FiledTree(t1, e, id); AddEntry(t, e) == Some(t3.(info := t3.info[id := e.InfoOf()]))
  {
    NoDotInEntry(e);
    LookupIsF(t, f, dirs, e.PathOf());
    ParentsAreDirs(es, e, f, dirs);
    NewNodeKeepsShape(t, f, dirs, e.AttrOf(), if e.kind.Dir? then 1 else 0);
    t1, id := EntryNode(t, e).value.0, EntryNode(t, e).value.1;
  }

  lemma {:induction false} FreshEntryAgrees(t: Tree, es: seq<Entry>, f: map<Path, Id>, dirs: set<Path>, e: Entry)
    returns (f': map<Path, Id>, dirs': set<Path>)
    requires Agrees(t, es, f, dirs) && WellFormed(es + [e]) && AddEntry(t, e).Some?
    requires !e.kind.Hardlink? && e.PathOf() !in f
    ensures Agrees(AddEntry(t, e).value, es + [e], f', dirs')
  {
    var t1, id := FreshEntryTree(t, es, f, dirs, e);
    f', dirs' := FileNewPath(t1, f, dirs, e.PathOf(), id, e.kind.Dir?);
    var t3 := FiledTree(t1, e, id);
    FreshEntryShown(t, es, f, dirs, e, t1, id, t3, f', dirs');
    SamePathsSnoc(es, e, t1, f, dirs, t3, f', dirs', id);
    OwnNodesSnoc(es, e, t, f, dirs, t1, t3, f', dirs', id);
    SameSkeletonShape(t3, AddEntry(t, e).value, f', dirs');
  }

  lemma {:induction false} FreshEntryShown(t: Tree, es: seq<Entry>, f: map<Path, Id>, dirs: set<Path>, e: Entry,
        t1: Tree, id: Id, t3: Tree, f': map<Path, Id>, dirs': set<Path>)
    requires EntriesShown(t, es, f) && ImplicitShown(t, es, f) && Numbered(t, f) && !e.kind.Hardlink?
    requires NewNode(t, e.AttrOf(), if e.kind.Dir? then 1 else 0) == Some((t1, id))
    requires FiledAt(t1, f, dirs, t3, f', dirs', e.PathOf(), id, e.kind.Dir?)
    ensures var t4 := t3.(info := t3.info[id := e.InfoOf()]);
            EntriesShown(t4, es + [e], f') && ImplicitShown(t4, es + [e], f')
  {
    var t4 := t3.(info := t3.info[id := e.InfoOf()]);
    OldShown(es, e, t, f, dirs, t1, t3, f', dirs', id);
    forall i | 0 <= i < |es| && !es[i].kind.Hardlink? ensures es[i].PathOf() in f' && f'[es[i].PathOf()] != id {
      assert Shows(t, f, es[i]);
    }
    InfoUpdateKeepsShown(es, t3, f', id, e.InfoOf());
    assert id in t1.nodes && t1.nodes[id].attr == e.AttrOf();
    assert Shows(t4, f', e);
    ShownSnoc(es, e, t4, f');
  }

  /** A hardlink gets the node of its target. */
  lemma {:induction false} LinkEntryAgrees(t: Tree, es: seq<Entry>, f: map<Path, Id>, dirs: set<Path>, e: Entry)
    returns (f': map<Path, Id>, dirs': set<Path>)
    requires Agrees(t, es, f, dirs) && WellFormed(es + [e]) && AddEntry(t, e).Some? && e.kind.Hardlink?
    ensures Agrees(AddEntry(t, e).value, es + [e], f', dirs')
  {
    var p := e.PathOf();
    LinkFileable(t, es, f, dirs, e);
    var (t1, id) := EntryNode(t, e).value;
    ParentsAreDirs(es, e, f, dirs);
    f', dirs' := FileNewPath(t1, f, dirs, p, id, false);
    var (t2, parent) := GetOrCreate(t1, Front(p)).value;
    var t3 := SetChild(t2, parent, Last(p), id, false);
    LinkEntryShown(t, es, f, dirs, e, t1, id, t3, f', dirs');
    SamePathsSnoc(es, e, t1, f, dirs, t3, f', dirs', id);
    OwnNodesSnoc(es, e, t, f, dirs, t1, t3, f', dirs', id);
  }

  lemma {:induction false} LinkFileable(t: Tree, es: seq<Entry>, f: map<Path, Id>, dirs: set<Path>, e: Entry)
    requires Agrees(t, es, f, dirs) && WellFormed(es + [e]) && e.kind.Hardlink?
    ensures e.PathOf() != [] && e.PathOf() !in f && "." !in e.PathOf() && e.Target() in f
    ensures EntryNode(t, e) == Some((AddLink(t, f[e.Target()]), f[e.Target()]))
    ensures Shape(AddLink(t, f[e.Target()]), f, dirs)
    ensures Fileable(AddLink(t, f[e.Target()]), f, dirs, e.PathOf(), f[e.Target()], false)
  {
    NoDotInEntry(e);
    TargetNotAbove(es, e);
    LookupIsF(t, f, dirs, e.Target());
    SameSkeletonShape(t, AddLink(t, f[e.Target()]), f, dirs);
    assert e.Target() !in dirs;
  }

  lemma {:induction false} LinkEntryShown(t: Tree, es: seq<Entry>, f: map<Path, Id>, dirs: set<Path>, e: Entry,
        t1: Tree, id: Id, t3: Tree, f': map<Path, Id>, dirs': set<Path>)
    requires EntriesShown(t, es, f) && ImplicitShown(t, es, f) && id in t.nodes
    requires e.kind.Hardlink? && e.Target() in f && f[e.Target()] == id && t1 == AddLink(t, id)
    requires FiledAt(t1, f, dirs, t3, f', dirs', e.PathOf(), id, false)
    ensures EntriesShown(t3, es + [e], f') && ImplicitShown(t3, es + [e], f')
  {
    OldShown(es, e, t, f, dirs, t1, t3, f', dirs', id);
    ShownSnoc(es, e, t3, f');
  }

  lemma {:induction false} TargetNotAbove(es: seq<Entry>, e: Entry)
    requires WellFormed(es + [e]) && e.kind.Hardlink?
    ensures e.Target() in FilePaths(es) && e.Target() in TocPaths(es) && e.Target() !in Prefixes(e.PathOf())
    ensures e.PathOf() !in TocPaths(es)
  {
    EntrySnoc(es, e);
    KindsOfPaths(es);
  }

  lemma {:induction false} LookupSameKids(t: Tree, t': Tree, p: Path)
    requires t'.kids == t.kids
    ensures Lookup(t', p) == Lookup(t, p)
  {
    if p != [] { LookupSameKids(t, t', Front(p)); }
  }

  /** A directory entry that comes after its descendants fills in the implicit directory. */
  lemma {:induction false} LateDirStep(t: Tree, e: Entry, id: Id, parent: Id) returns (t3: Tree)
    requires e.kind.Dir? && e.PathOf() != [] && id in t.nodes && t.nodes[id].attr == IMPLICIT_DIR
    requires Lookup(t, e.PathOf()) == Some(id) && Lookup(t, Front(e.PathOf())) == Some(parent) && parent in t.nodes
    requires KidIs(t, parent, Last(e.PathOf()), id)
    ensures AddEntry(t, e) == Some(t3.(info := t3.info[id := e.InfoOf()]))
    ensures t3.kids == t.kids && t3.nodes.Keys == t.nodes.Keys && t3.cur == t.cur && t3.info == t.info
    ensures forall d | d in t.nodes :: t3.nodes[d].attr == if d == id then e.AttrOf() else t.nodes[d].attr
    ensures forall d | d in t.nodes :: t3.nodes[d].links == t.nodes[d].links + if d == parent then 1 else 0
  {
    var p := e.PathOf();
    var t1 := t.(nodes := t.nodes[id := t.nodes[id].(attr := e.AttrOf())]);
    assert EntryNode(t, e) == Some((t1, id));
    LookupSameKids(t, t1, Front(p));
    assert GetOrCreate(t1, Front(p)) == Some((t1, parent));
    t3 := SetChild(t1, parent, Last(p), id, true);
    SetChildKids(t1, parent, Last(p), id, true);
    assert t.kids[parent][Last(p) := id] == t.kids[parent];
    assert t.kids[parent := t.kids[parent]] == t.kids;
  }

  lemma {:induction false} LateDirTree(t: Tree, es: seq<Entry>, f: map<Path, Id>, dirs: set<Path>, e: Entry)
    returns (t3: Tree)
    requires Agrees(t, es, f, dirs) && WellFormed(es + [e]) && e.kind.Dir? && e.PathOf() in f && e.PathOf() != []
    ensures AddEntry(t, e) == Some(t3.(info := t3.info[f[e.PathOf()] := e.InfoOf()]))
    ensures t3.kids == t.kids && t3.nodes.Keys == t.nodes.Keys && t3.cur == t.cur && t3.info == t.info
    ensures forall d | d in t.nodes :: t3.nodes[d].attr == if d == f[e.PathOf()] then e.AttrOf() else t.nodes[d].attr
    ensures Front(e.PathOf()) in f
    ensures forall d | d in t.nodes ::
              t3.nodes[d].links == t.nodes[d].links + if d == f[Front(e.PathOf())] then 1 else 0
  {
    EntrySnoc(es, e);
    assert FiledUnder(t, f, dirs, e.PathOf());
    LookupIsF(t, f, dirs, e.PathOf());
    LookupIsF(t, f, dirs, Front(e.PathOf()));
    t3 := LateDirStep(t, e, f[e.PathOf()], f[Front(e.PathOf())]);
  }

  lemma {:induction false} OnlyPathOfDir(t: Tree, es: seq<Entry>, f: map<Path, Id>, dirs: set<Path>, e: Entry)
    requires Agrees(t, es, f, dirs) && WellFormed(es + [e]) && e.kind.Dir? && e.PathOf() in f
    ensures e.PathOf() in dirs
    ensures forall q | q in f && q != e.PathOf() :: f[q] != f[e.PathOf()]
    ensures forall i | 0 <= i < |es| && !es[i].kind.Hardlink? ::
        es[i].PathOf() in f && f[es[i].PathOf()] != f[e.PathOf()]
  {
    EntrySnoc(es, e);
    KindsOfPaths(es);
    forall i | 0 <= i < |es| && !es[i].kind.Hardlink? ensures es[i].PathOf() in f && es[i].PathOf() != e.PathOf() {
      EntryListed(es, i);
    }
  }

  lemma {:induction false} LateDirPaths(t: Tree, es: seq<Entry>, f: map<Path, Id>, dirs: set<Path>, e: Entry)
    requires Shape(t, f, dirs) && SamePaths(es, f, dirs) && OwnNodes(es, f) && WellFormed(es + [e]) && e.kind.Dir?
    requires e.PathOf() in f
    ensures SamePaths(es + [e], f, dirs) && OwnNodes(es + [e], f)
  {
    EntrySnoc(es, e);
    PrefixesAreDirs(t, f, dirs, e.PathOf());
  }

  lemma {:induction false} LateDirAgrees(t: Tree, es: seq<Entry>, f: map<Path, Id>, dirs: set<Path>, e: Entry)
    requires Agrees(t, es, f, dirs) && WellFormed(es + [e])
    requires e.kind.Dir? && e.PathOf() in f && e.PathOf() != []
    ensures AddEntry(t, e).Some? && Agrees(AddEntry(t, e).value, es + [e], f, dirs)
  {
    var t3 := LateDirTree(t, es, f, dirs, e);
    var id := f[e.PathOf()];
    var t4 := t3.(info := t3.info[id := e.InfoOf()]);
    SameSkeletonShape(t, t4, f, dirs);
    LateDirPaths(t, es, f, dirs, e);
    OnlyPathOfDir(t, es, f, dirs, e);
    LateDirShown(t, es, f, e, t3);
  }

  lemma {:induction false} LateDirShown(t: Tree, es: seq<Entry>, f: map<Path, Id>, e: Entry, t3: Tree)
    requires EntriesShown(t, es, f) && ImplicitShown(t, es, f)
    requires e.kind.Dir? && e.PathOf() in f && f[e.PathOf()] in t.nodes
    requires forall q | q in f && q != e.PathOf() :: f[q] != f[e.PathOf()]
    requires forall i | 0 <= i < |es| && !es[i].kind.Hardlink? ::
        es[i].PathOf() in f && f[es[i].PathOf()] != f[e.PathOf()]
    requires t3.nodes.Keys == t.nodes.Keys && t3.info == t.info
    requires forall d | d in t.nodes :: t3.nodes[d].attr == if d == f[e.PathOf()] then e.AttrOf() else t.nodes[d].attr
    ensures var t4 := t3.(info := t3.info[f[e.PathOf()] := e.InfoOf()]);
            EntriesShown(t4, es + [e], f) && ImplicitShown(t4, es + [e], f)
  {
    var id := f[e.PathOf()];
    var t4 := t3.(info := t3.info[id := e.InfoOf()]);
    EntrySnoc(es, e);
    forall i | 0 <= i < |es| && !es[i].kind.Hardlink? ensures Shows(t4, f, es[i]) {
      assert Shows(t, f, es[i]);
    }
    assert EntriesShown(t4, es, f);
    ShownSnoc(es, e, t4, f);
  }

  /** An entry for the root itself is filed under the name "." of the root. */
  lemma {:induction false} RootEntryTree(t: Tree, es: seq<Entry>, f: map<Path, Id>, dirs: set<Path>, e: Entry)
    returns (t3: Tree)
    requires Agrees(t, es, f, dirs) && WellFormed(es + [e]) && e.PathOf() == []
    ensures e.kind.Dir? && AddEntry(t, e) == Some(t3.(info := t3.info[ROOT := e.InfoOf()]))
    ensures t3.kids == t.kids[ROOT := KidsOf(t, ROOT)["." := ROOT]]
    ensures t3.nodes.Keys == t.nodes.Keys && t3.cur == t.cur && t3.info == t.info
    ensures forall d | d in t.nodes :: t3.nodes[d].attr == if d == ROOT then e.AttrOf() else t.nodes[d].attr
    ensures forall d | d in t.nodes :: t3.nodes[d].links == t.nodes[d].links + if d == ROOT then 1 else 0
  {
    EntrySnoc(es, e);
    assert e.kind.Dir? && ROOT in t.nodes && t.nodes[ROOT].attr == IMPLICIT_DIR;
    t3 := RootIsFiled(t, e);
  }

  /** A directory entry for the root gives it its attributes and files it in itself. */
  lemma {:induction false} RootIsFiled(t: Tree, e: Entry) returns (t3: Tree)
    requires e.PathOf() == [] && e.kind.Dir? && ROOT in t.nodes && t.nodes[ROOT].attr == IMPLICIT_DIR
    ensures AddEntry(t, e) == Some(t3.(info := t3.info[ROOT := e.InfoOf()]))
    ensures t3.kids == t.kids[ROOT := KidsOf(t, ROOT)["." := ROOT]]
    ensures t3.nodes.Keys == t.nodes.Keys && t3.cur == t.cur && t3.info == t.info
    ensures forall d | d in t.nodes :: t3.nodes[d].attr == if d == ROOT then e.AttrOf() else t.nodes[d].attr
    ensures forall d | d in t.nodes :: t3.nodes[d].links == t.nodes[d].links + if d == ROOT then 1 else 0
  {
    var t1 := t.(nodes := t.nodes[ROOT := t.nodes[ROOT].(attr := e.AttrOf())]);
    assert EntryNode(t, e) == Some((t1, ROOT));
    assert GetOrCreate(t1, []) == Some((t1, ROOT));
    t3 := SetChild(t1, ROOT, ".", ROOT, true);
  }

  lemma {:induction false} DotKeepsShape(t: Tree, t': Tree, f: map<Path, Id>, dirs: set<Path>)
    requires Shape(t, f, dirs) && t'.nodes.Keys == t.nodes.Keys && t'.cur == t.cur
    requires t'.kids == t.kids[ROOT := KidsOf(t, ROOT)["." := ROOT]]
    ensures Shape(t', f, dirs)
  {
    forall p | p in f ensures FiledUnder(t', f, dirs, p) {
      assert FiledUnder(t, f, dirs, p);
    }
    forall p, n | p in f && n in KidsOf(t', f[p]) && n != "." ensures p + [n] in f {
      assert n in KidsOf(t, f[p]);
    }
    assert f[[]] == ROOT && ROOT in t.nodes;
  }

  lemma {:induction false} RootEntryAgrees(t: Tree, es: seq<Entry>, f: map<Path, Id>, dirs: set<Path>, e: Entry)
    requires Agrees(t, es, f, dirs) && WellFormed(es + [e]) && e.PathOf() == []
    ensures AddEntry(t, e).Some? && Agrees(AddEntry(t, e).value, es + [e], f, dirs)
  {
    var t3 := RootEntryTree(t, es, f, dirs, e);
    DotKeepsShape(t, t3, f, dirs);
    SameSkeletonShape(t3, AddEntry(t, e).value, f, dirs);
    LateDirPaths(t, es, f, dirs, e);
    OnlyPathOfDir(t, es, f, dirs, e);
    LateDirShown(t, es, f, e, t3);
  }

  // -------------------------------------------------------- whole tables

  lemma {:induction false} AddEntryAgrees(t: Tree, es: seq<Entry>, f: map<Path, Id>, dirs: set<Path>, e: Entry)
    returns (f': map<Path, Id>, dirs': set<Path>)
    requires Agrees(t, es, f, dirs) && WellFormed(es + [e]) && AddEntry(t, e).Some?
    ensures Agrees(AddEntry(t, e).value, es + [e], f', dirs')
  {
    EntrySnoc(es, e);
    if e.kind.Hardlink? {
      f', dirs' := LinkEntryAgrees(t, es, f, dirs, e);
    } else if e.PathOf() == [] {
      RootEntryAgrees(t, es, f, dirs, e);
      f', dirs' := f, dirs;
    } else if e.PathOf() in f {
      LateDirAgrees(t, es, f, dirs, e);
      f', dirs' := f, dirs;
    } else {
      f', dirs' := FreshEntryAgrees(t, es, f, dirs, e);
    }
  }

  lemma {:induction false} EmptyTreeAgrees()
    ensures Agrees(EmptyTree(), [], map[[] := ROOT], {[]})
  {
    var f: map<Path, Id> := map[[] := ROOT];
    assert f.Keys == {[]};
  }

  lemma {:induction false} BuildAgrees(es: seq<Entry>, t: Tree) returns (f: map<Path, Id>, dirs: set<Path>)
    requires WellFormed(es) && Build(EmptyTree(), es) == Some(t)
    ensures Agrees(t, es, f, dirs)
    decreases |es|
  {
    if es == [] {
      EmptyTreeAgrees();
      f, dirs := map[[] := ROOT], {[]};
    } else {
      var front, e := es[..|es| - 1], es[|es| - 1];
      assert front + [e] == es;
      f, dirs := BuildAgrees(front, Build(EmptyTree(), front).value);
      f, dirs := AddEntryAgrees(Build(EmptyTree(), front).value, front, f, dirs, e);
    }
  }

  // ------------------------------------------------------- main theorems

  /** What the built tree and its paths have in common with the table. */
  lemma {:induction false} BuiltTree(es: seq<Entry>, t: Tree) returns (f: map<Path, Id>, dirs: set<Path>)
    requires WellFormed(es) && Build(EmptyTree(), es) == Some(t)
    ensures Shape(t, f, dirs) && f.Keys == TocPaths(es)
  {
    f, dirs := BuildAgrees(es, t);
  }

  lemma {:induction false} WalkIsF(es: seq<Entry>, t: Tree, f: map<Path, Id>, dirs: set<Path>, q: Path)
    requires Shape(t, f, dirs) && f.Keys == TocPaths(es) && "." !in q
    ensures Lookup(t, q).Some? <==> q in TocPaths(es)
  {
    LookupIsF(t, f, dirs, q);
  }

  /** A path of the table is the root, or leads to an entry or to a directory above one. */
  lemma {:induction false} TocPathsAre(es: seq<Entry>, q: Path)
    ensures q in TocPaths(es) <==> q == [] || exists i :: 0 <= i < |es| && q <= es[i].PathOf()
  {
    if es != [] {
      var front, e := es[..|es| - 1], es[|es| - 1];
      TocPathsAre(front, q);
      PrefixesAre(e.PathOf(), q);
      if q in TocPaths(front) && q != [] {
        var i :| 0 <= i < |front| && q <= front[i].PathOf();
        assert es[i] == front[i];
      }
      if i :| 0 <= i < |es| && q <= es[i].PathOf() {
        assert i < |front| ==> front[i] == es[i];
      }
    }
  }

  lemma {:induction false} EntryPathsAre(es: seq<Entry>, q: Path)
    ensures q in EntryPaths(es) <==> exists i :: 0 <= i < |es| && es[i].PathOf() == q
    ensures q in FilePaths(es) <==> exists i :: 0 <= i < |es| && !es[i].kind.Dir? && es[i].PathOf() == q
  {
    if es != [] {
      var front, e := es[..|es| - 1], es[|es| - 1];
      assert forall i :: 0 <= i < |front| ==> front[i] == es[i];
      EntryPathsAre(front, q);
    }
  }

  /** Two entries have different paths, and one lies below the other only where that is a directory. */
  predicate Compatible(d: Entry, e: Entry) {
    && (d.PathOf() <= e.PathOf() ==> d.kind.Dir? && d.PathOf() != e.PathOf())
    && (e.PathOf() <= d.PathOf() ==> e.kind.Dir? && d.PathOf() != e.PathOf())
  }

  /** An entry links to one of the given entries that is no directory. */
  predicate HasTarget(es: seq<Entry>, e: Entry) {
    exists j :: 0 <= j < |es| && !es[j].kind.Dir? && es[j].PathOf() == e.Target()
  }

  lemma {:induction false} FitsBeside(es: seq<Entry>, e: Entry, j: nat)
    requires j < |es| && Fits(es, e)
    ensures Compatible(es[j], e)
  {
    var p, q := e.PathOf(), es[j].PathOf();
    EntryPathsAre(es, p);
    EntryPathsAre(es, q);
    PrefixesAre(ParentOf(p), q);
    TocPathsAre(es, p);
    assert q <= p && q != p ==> q <= ParentOf(p);
  }

  lemma {:induction false} FitsIfBeside(es: seq<Entry>, e: Entry)
    requires (e.PathOf() == [] ==> e.kind.Dir?) && (e.kind.Hardlink? ==> HasTarget(es, e))
    requires forall j :: 0 <= j < |es| ==> Compatible(es[j], e)
    ensures Fits(es, e)
  {
    var p := e.PathOf();
    EntryPathsAre(es, p);
    EntryPathsAre(es, e.Target());
    TocPathsAre(es, p);
    forall q | q in Prefixes(ParentOf(p)) ensures q !in FilePaths(es) {
      PrefixesAre(ParentOf(p), q);
      EntryPathsAre(es, q);
      assert q <= p;
    }
  }

  /** Entry `i` is a directory where it is the root, links back where it is a hardlink, and is compatible
      with every entry before it. */
  predicate EntryOk(es: seq<Entry>, i: nat)
    requires i < |es|
  {
    && (es[i].PathOf() == [] ==> es[i].kind.Dir?) && (es[i].kind.Hardlink? ==> HasTarget(es[..i], es[i]))
    && (forall j :: 0 <= j < i ==> Compatible(es[j], es[i]))
  }

  lemma {:induction false} LastFitsIff(es: seq<Entry>)
    requires es != []
    ensures Fits(es[..|es| - 1], es[|es| - 1]) <==> EntryOk(es, |es| - 1)
  {
    var front, e := es[..|es| - 1], es[|es| - 1];
    assert forall j :: 0 <= j < |front| ==> front[j] == es[j];
    if Fits(front, e) {
      forall j: nat | j < |front| ensures Compatible(es[j], e) { FitsBeside(front, e, j); }
      TocPathsAre(front, []);
      EntryPathsAre(front, e.Target());
    } else if EntryOk(es, |es| - 1) {
      FitsIfBeside(front, e);
    }
  }

  /** A table is well-formed exactly when paths differ, only directories have anything below them, the root
      is listed as a directory only, and every hardlink has an earlier file to link to. */
  lemma {:induction false} WellFormedIff(es: seq<Entry>)
    ensures WellFormed(es) <==> forall i: nat :: i < |es| ==> EntryOk(es, i)
  {
    if es != [] {
      var front := es[..|es| - 1];
      WellFormedIff(front);
      LastFitsIff(es);
      forall i: nat | i < |front| ensures EntryOk(front, i) <==> EntryOk(es, i) {
        assert front[..i] == es[..i];
      }
    }
  }

  /** A walk from the root succeeds exactly for the root, the entries and the directories above them. */
  lemma {:induction false} WalkFindsExactlyTheTable(es: seq<Entry>, t: Tree, q: Path)
    requires WellFormed(es) && Build(EmptyTree(), es) == Some(t) && "." !in q
    ensures Lookup(t, q).Some? <==> q == [] || exists i :: 0 <= i < |es| && q <= es[i].PathOf()
  {
    var f, dirs := BuiltTree(es, t);
    WalkIsF(es, t, f, dirs, q);
    TocPathsAre(es, q);
  }

  /** The number of the bit that marks an entry's kind among the mode bits. */
  function TypeBits(k: Kind): nat {
    match k
    case Dir => 0x8000_0000
    case Hardlink => 0
    case Other(bits) => bits
  }

  /** A node says of an entry what the entry says of itself. */
  predicate NodeSays(a: Attr, e: Entry) {
    && a.size == e.size && a.modTime == e.modTime && a.linkName == e.linkName && a.uid == e.uid && a.gid == e.gid
    && a.devMajor == e.devMajor && a.devMinor == e.devMinor && a.xattrs == e.xattrs
    && a.mode == e.perm + TypeBits(e.kind)
  }

  /** The stored tar position of an entry: its content, its header, and the header's length. */
  predicate InfoSays(n: Info, e: Entry) {
    && n.tarName == e.name && n.uncompressedOffset == e.uncompressedOffset && n.tarHeaderOffset == e.tarHeaderOffset
    && n.tarHeaderOffset + n.tarHeaderSize == e.uncompressedOffset
  }

  /** What a walk to an entry shows. */
  predicate EntrySeen(t: Tree, e: Entry) {
    var found := Lookup(t, e.PathOf());
    && found.Some?
    && (if e.kind.Hardlink? then found == Lookup(t, e.Target())
        else && found.value in t.nodes && NodeSays(t.nodes[found.value].attr, e)
             && found.value in t.info && InfoSays(t.info[found.value], e))
  }

  lemma {:induction false} SeenIfShown(t: Tree, f: map<Path, Id>, dirs: set<Path>, e: Entry)
    requires Shape(t, f, dirs) && if e.kind.Hardlink? then SharesTarget(f, e) else Shows(t, f, e)
    ensures EntrySeen(t, e)
  {
    LookupIsF(t, f, dirs, e.PathOf());
    if e.kind.Hardlink? { LookupIsF(t, f, dirs, e.Target()); }
  }

  /** The walk to an entry ends at a node with the entry's attributes and tar position; the walk to a
      hardlink ends where the walk to its target ends. */
  lemma {:induction false} WalkShowsEntry(es: seq<Entry>, t: Tree, i: nat)
    requires WellFormed(es) && Build(EmptyTree(), es) == Some(t) && i < |es|
    ensures EntrySeen(t, es[i])
  {
    var f, dirs := BuildAgrees(es, t);
    assert if es[i].kind.Hardlink? then SharesTarget(f, es[i]) else Shows(t, f, es[i]);
    SeenIfShown(t, f, dirs, es[i]);
  }

  /** A directory with mode 0755, everything else zero or empty. */
  predicate ImplicitSeen(t: Tree, q: Path) {
    && Lookup(t, q).Some? && Lookup(t, q).value in t.nodes
    && t.nodes[Lookup(t, q).value].attr == Attr(0, 0, "", 0x8000_0000 + 7 * 64 + 5 * 8 + 5, 0, 0, 0, 0, map[])
  }

  lemma {:induction false} ImplicitIfShown(t: Tree, f: map<Path, Id>, dirs: set<Path>, q: Path)
    requires Shape(t, f, dirs) && q in f && t.nodes[f[q]].attr == IMPLICIT_DIR
    ensures ImplicitSeen(t, q)
  {
    LookupIsF(t, f, dirs, q);
  }

  /** A directory above an entry, or the root, that no entry lists is shown with default attributes. */
  lemma {:induction false} WalkShowsImplicitDir(es: seq<Entry>, t: Tree, q: Path)
    requires WellFormed(es) && Build(EmptyTree(), es) == Some(t)
    requires q == [] || exists i :: 0 <= i < |es| && q <= es[i].PathOf()
    requires forall i :: 0 <= i < |es| ==> es[i].PathOf() != q
    ensures ImplicitSeen(t, q)
  {
    var f, dirs := BuildAgrees(es, t);
    TocPathsAre(es, q);
    EntryPathsAre(es, q);
    ImplicitIfShown(t, f, dirs, q);
  }

  predicate SameWalk(t: Tree, q: Path, r: Path) {
    Lookup(t, q) == Lookup(t, r)
  }

  lemma {:induction false} SameWalkIffSameNode(t: Tree, f: map<Path, Id>, dirs: set<Path>, q: Path, r: Path)
    requires Shape(t, f, dirs) && q in f && r in f
    ensures SameWalk(t, q, r) <==> f[q] == f[r]
  {
    LookupIsF(t, f, dirs, q);
    LookupIsF(t, f, dirs, r);
  }

  /** Different paths, hardlinks aside, lead to different nodes. */
  lemma {:induction false} WalksDoNotMerge(es: seq<Entry>, t: Tree, q: Path, r: Path)
    requires WellFormed(es) && Build(EmptyTree(), es) == Some(t)
    requires q in TocPaths(es) && r in TocPaths(es) && q !in LinkPaths(es) && r !in LinkPaths(es)
    ensures SameWalk(t, q, r) <==> q == r
  {
    var f, dirs := BuildAgrees(es, t);
    SameWalkIffSameNode(t, f, dirs, q, r);
  }
}
