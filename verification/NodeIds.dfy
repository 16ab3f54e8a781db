/**
 Node identifiers: a table gets one identifier for every path that is not a hardlink, and building the
 tree fails exactly when there are more of those than identifiers.
 */
module NodeIds {
  import opened Paths
  import opened MetadataTree
  import opened TreeAgreement

  /** The paths that get a node of their own. */
  function OwnedPaths(es: seq<Entry>): set<Path> {
    TocPaths(es) - LinkPaths(es)
  }

  lemma {:induction false} MissingByOne(f: map<Path, Id>, p: Path)
    requires p != [] && p !in f
    ensures |Prefixes(p) - f.Keys| == |Prefixes(Front(p)) - f.Keys| + 1
  {
    NotAboveItself(p);
    assert Prefixes(p) - f.Keys == (Prefixes(Front(p)) - f.Keys) + {p};
  }

  /** Missing directories take one identifier each, in any tree that has enough of them. */
  lemma {:induction false} GetOrCreateIds(t: Tree, f: map<Path, Id>, dirs: set<Path>, p: Path)
    requires Shape(t, f, dirs) && "." !in p && t.cur <= MAX_ID
    ensures GetOrCreate(t, p).Some? <==> t.cur + |Prefixes(p) - f.Keys| <= MAX_ID
    ensures GetOrCreate(t, p).Some? ==> GetOrCreate(t, p).value.0.cur == t.cur + |Prefixes(p) - f.Keys|
    decreases |p|
  {
    LookupIsF(t, f, dirs, p);
    if p in f {
      PrefixesAreDirs(t, f, dirs, p);
      assert Prefixes(p) - f.Keys == {};
    } else {
      MissingByOne(f, p);
      if t.cur < MAX_ID {
        NewNodeKeepsShape(t, f, dirs, IMPLICIT_DIR, 1);
        GetOrCreateIds(NewNode(t, IMPLICIT_DIR, 1).value.0, f, dirs, Front(p));
      }
    }
  }

  /** How many identifiers an entry takes. */
  function NewIds(f: map<Path, Id>, e: Entry): nat {
    |Prefixes(if e.kind.Hardlink? then ParentOf(e.PathOf()) else e.PathOf()) - f.Keys|
  }

  lemma {:induction false} FiledEntryIds(t: Tree, f: map<Path, Id>, dirs: set<Path>, e: Entry, id: Id)
    requires Shape(t, f, dirs) && t.cur <= MAX_ID && e.PathOf() != []
    ensures FileEntry(t, e, id).Some? <==> t.cur + |Prefixes(Front(e.PathOf())) - f.Keys| <= MAX_ID
    ensures FileEntry(t, e, id).Some? ==>
              FileEntry(t, e, id).value.cur == t.cur + |Prefixes(Front(e.PathOf())) - f.Keys|
  {
    NoDotInEntry(e);
    GetOrCreateIds(t, f, dirs, Front(e.PathOf()));
  }

  lemma {:induction false} FreshEntryIds(t: Tree, es: seq<Entry>, f: map<Path, Id>, dirs: set<Path>, e: Entry)
    requires Shape(t, f, dirs) && t.cur <= MAX_ID && !e.kind.Hardlink? && e.PathOf() !in f
    ensures AddEntry(t, e).Some? <==> t.cur + NewIds(f, e) <= MAX_ID
    ensures AddEntry(t, e).Some? ==> AddEntry(t, e).value.cur == t.cur + NewIds(f, e)
  {
    NoDotInEntry(e);
    LookupIsF(t, f, dirs, e.PathOf());
    MissingByOne(f, e.PathOf());
    var attr, links := WriteNode(NO_ATTR, e.AttrOf()), if e.kind.Dir? then 1 else 0;
    assert EntryNode(t, e) == NewNode(t, attr, links);
    if t.cur < MAX_ID {
      NewNodeKeepsShape(t, f, dirs, attr, links);
      FiledEntryIds(NewNode(t, attr, links).value.0, f, dirs, e, t.cur + 1);
    }
  }

  lemma {:induction false} LinkEntryIds(t: Tree, es: seq<Entry>, f: map<Path, Id>, dirs: set<Path>, e: Entry)
    requires Agrees(t, es, f, dirs) && WellFormed(es + [e]) && t.cur <= MAX_ID && e.kind.Hardlink?
    ensures AddEntry(t, e).Some? <==> t.cur + NewIds(f, e) <= MAX_ID
    ensures AddEntry(t, e).Some? ==> AddEntry(t, e).value.cur == t.cur + NewIds(f, e)
  {
    LinkFileable(t, es, f, dirs, e);
    FiledEntryIds(AddLink(t, f[e.Target()]), f, dirs, e, f[e.Target()]);
  }

  lemma {:induction false} LateDirIds(t: Tree, es: seq<Entry>, f: map<Path, Id>, dirs: set<Path>, e: Entry)
    requires Agrees(t, es, f, dirs) && WellFormed(es + [e]) && e.kind.Dir? && e.PathOf() in f
    ensures AddEntry(t, e).Some? && AddEntry(t, e).value.cur == t.cur && NewIds(f, e) == 0
  {
    PrefixesAreDirs(t, f, dirs, e.PathOf());
    assert Prefixes(e.PathOf()) - f.Keys == {};
    if e.PathOf() == [] {
      var t3 := RootEntryTree(t, es, f, dirs, e);
    } else {
      var t3 := LateDirTree(t, es, f, dirs, e);
    }
  }

  lemma {:induction false} AddEntryIds(t: Tree, es: seq<Entry>, f: map<Path, Id>, dirs: set<Path>, e: Entry)
    requires Agrees(t, es, f, dirs) && WellFormed(es + [e]) && t.cur <= MAX_ID
    ensures AddEntry(t, e).Some? <==> t.cur + NewIds(f, e) <= MAX_ID
    ensures AddEntry(t, e).Some? ==> AddEntry(t, e).value.cur == t.cur + NewIds(f, e)
  {
    if e.kind.Hardlink? {
      LinkEntryIds(t, es, f, dirs, e);
    } else if e.PathOf() in f {
      EntrySnoc(es, e);
      LateDirIds(t, es, f, dirs, e);
    } else {
      FreshEntryIds(t, es, f, dirs, e);
    }
  }

  lemma {:induction false} CountAdded(all: set<Path>, links: set<Path>, added: set<Path>)
    requires links <= all
    ensures |(all + added) - links| == |all - links| + |added - all|
  {
    assert (all + added) - links == (all - links) + (added - all);
  }

  lemma {:induction false} CountLink(all: set<Path>, links: set<Path>, p: Path)
    requires links <= all && p != [] && p !in all
    ensures |(all + Prefixes(p)) - (links + {p})| == |all - links| + |Prefixes(Front(p)) - all|
  {
    NotAboveItself(p);
    var above := Prefixes(Front(p));
    assert (all + Prefixes(p)) - (links + {p}) == (all + above) - links;
    CountAdded(all, links, above);
  }

  /** The new entry's own paths, counted. */
  lemma {:induction false} OwnedPathsSnoc(es: seq<Entry>, e: Entry, f: map<Path, Id>)
    requires WellFormed(es + [e]) && f.Keys == TocPaths(es)
    ensures |OwnedPaths(es + [e])| == |OwnedPaths(es)| + NewIds(f, e)
  {
    EntrySnoc(es, e);
    KindsOfPaths(es);
    if e.kind.Hardlink? {
      RootInToc(es);
      CountLink(TocPaths(es), LinkPaths(es), e.PathOf());
    } else {
      CountAdded(TocPaths(es), LinkPaths(es), Prefixes(e.PathOf()));
    }
  }

  lemma {:induction false} RootInToc(es: seq<Entry>)
    ensures [] in TocPaths(es)
  {
    if es != [] { RootInToc(es[..|es| - 1]); }
  }

  /** Building fails exactly when the paths that are no hardlinks outnumber the identifiers; otherwise
      the identifiers handed out are as many as those paths. */
  lemma {:induction false} BuildSucceedsIffIdsSuffice(es: seq<Entry>)
    requires WellFormed(es)
    ensures Build(EmptyTree(), es).Some? <==> |OwnedPaths(es)| <= 4294967295
    ensures Build(EmptyTree(), es).Some? ==> Build(EmptyTree(), es).value.cur == |OwnedPaths(es)|
    decreases |es|
  {
    if es == [] {
      assert OwnedPaths(es) == {[]};
    } else {
      var front, e := es[..|es| - 1], es[|es| - 1];
      assert front + [e] == es;
      BuildSucceedsIffIdsSuffice(front);
      LastEntryIds(front, e);
    }
  }

  lemma {:induction false} LastEntryIds(front: seq<Entry>, e: Entry)
    requires WellFormed(front + [e])
    requires Build(EmptyTree(), front).Some? <==> |OwnedPaths(front)| <= MAX_ID
    requires Build(EmptyTree(), front).Some? ==> Build(EmptyTree(), front).value.cur == |OwnedPaths(front)|
    ensures |OwnedPaths(front)| <= |OwnedPaths(front + [e])|
    ensures Build(EmptyTree(), front).Some? ==>
      var t := Build(EmptyTree(), front).value;
      && (AddEntry(t, e).Some? <==> |OwnedPaths(front + [e])| <= MAX_ID)
      && (AddEntry(t, e).Some? ==> AddEntry(t, e).value.cur == |OwnedPaths(front + [e])|)
  {
    EntrySnoc(front, e);
    if Build(EmptyTree(), front).Some? {
      var t := Build(EmptyTree(), front).value;
      var f, dirs := BuildAgrees(front, t);
      AddEntryIds(t, front, f, dirs, e);
      OwnedPathsSnoc(front, e, f);
    } else {
      OwnedPathsGrow(front, e);
    }
  }

  lemma {:induction false} OwnedPathsGrow(es: seq<Entry>, e: Entry)
    requires WellFormed(es + [e])
    ensures |OwnedPaths(es)| <= |OwnedPaths(es + [e])|
  {
    OwnedPathsSnoc(es, e, map q | q in TocPaths(es) :: ROOT);
  }
}
