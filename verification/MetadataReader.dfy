/**
 The reader that turns a table of contents into inodes, working on names as strings and updating its
 buckets in place, proved against the tree functions on paths.
 */
module MetadataReader {
  import opened Base
  import opened Paths
  import opened MetadataTree
  import opened TreeAgreement
  import opened NodeIds

  const DEFAULT_CHUNK_SIZE := 5000

  // ----------------------------------------------------------- name lookup

  /** Finds the node of a name, going up to the parent's name until the name is empty. */
  function GetIDByName(t: Tree, path: string): Option<Id>
    decreases Depth(path)
  {
    if path == "" then Some(ROOT)
    else
      ParentIsLessDeep(path);
      var (dir, base) := SplitPath(CleanEntryPath(path));
      var parent := GetIDByName(t, dir);
      if parent.None? || parent.value !in t.kids || base !in t.kids[parent.value] then None
      else Some(t.kids[parent.value][base])
  }

  /** Looking a name up is walking its elements, however the name is spelled. */
  lemma {:induction false} NameLookupIsWalk(t: Tree, path: string)
    requires path == "" || Components(path) != []
    ensures GetIDByName(t, path) == Lookup(t, Components(path))
    decreases Depth(path)
  {
    if path != "" {
      var p := Components(path);
      ComponentsNormal(path);
      SplitOfJoin(p);
      ComponentsOfJoin(Front(p));
      ParentIsLessDeep(path);
      NameLookupIsWalk(t, DirPrefix(Front(p)));
    }
  }

  // --------------------------------------------------------------- chunks

  /** Cuts `data` into chunks of `chunkSize`, the last one shorter. */
  method Partition<T>(data: seq<T>, chunkSize: int) returns (chunks: seq<seq<T>>)
    ensures data == [] || chunkSize <= 0 ==> chunks == []
    ensures chunkSize > 0 ==> Flatten(chunks) == data
    ensures forall i :: 0 <= i < |chunks| ==>
        0 < |chunks[i]| <= chunkSize && (i < |chunks| - 1 ==> |chunks[i]| == chunkSize)
  {
    if |data| == 0 || chunkSize <= 0 {
      return [];
    }
    var rest := data;
    chunks := [];
    while chunkSize < |rest|
      invariant rest != [] && Flatten(chunks) + rest == data
      invariant forall i :: 0 <= i < |chunks| ==> |chunks[i]| == chunkSize
      decreases |rest|
    {
      MoveChunk(chunks, rest, chunkSize);
      rest, chunks := rest[chunkSize..], chunks + [rest[..chunkSize]];
    }
    FlattenSnoc(chunks, rest);
    chunks := chunks + [rest];
  }

  /** Moving the front of the rest to the chunks loses nothing. */
  lemma {:induction false} MoveChunk<T>(chunks: seq<seq<T>>, rest: seq<T>, n: nat)
    requires n <= |rest|
    ensures Flatten(chunks + [rest[..n]]) + rest[n..] == Flatten(chunks) + rest
  {
    FlattenSnoc(chunks, rest[..n]);
    var done := Flatten(chunks);
    assert (done + rest[..n]) + rest[n..] == done + (rest[..n] + rest[n..]);
    assert rest[..n] + rest[n..] == rest;
  }

  lemma {:induction false} FlattenConcat<T>(a: seq<seq<T>>, b: seq<seq<T>>)
    ensures Flatten(a + b) == Flatten(a) + Flatten(b)
    decreases |b|
  {
    if b == [] {
      assert a + b == a;
    } else {
      var front, last := b[..|b| - 1], b[|b| - 1];
      assert a + b == (a + front) + [last];
      FlattenSnoc(a + front, last);
      FlattenConcat(a, front);
      assert (Flatten(a) + Flatten(front)) + last == Flatten(a) + (Flatten(front) + last);
    }
  }

  /** A table is built piece by piece; once a piece fails, the table fails. */
  lemma {:induction false} BuildConcat(t: Tree, a: seq<Entry>, b: seq<Entry>)
    ensures Build(t, a + b) == if Build(t, a).None? then None else Build(Build(t, a).value, b)
    decreases |b|
  {
    if b == [] {
      assert a + b == a;
    } else {
      assert (a + b)[..|a + b| - 1] == a + b[..|b| - 1];
      BuildConcat(t, a, b[..|b| - 1]);
    }
  }

  /** The first `n` chunks give the tree `t`. */
  predicate BuiltChunks(chunks: seq<seq<Entry>>, n: nat, t: Tree) {
    n <= |chunks| && Build(EmptyTree(), Flatten(chunks[..n])) == Some(t)
  }

  lemma {:induction false} ChunkBuilt(chunks: seq<seq<Entry>>, n: nat, t: Tree, next: Option<Tree>)
    requires n < |chunks| && BuiltChunks(chunks, n, t) && Build(t, chunks[n]) == next
    ensures next.Some? ==> BuiltChunks(chunks, n + 1, next.value)
    ensures next.None? ==> Build(EmptyTree(), Flatten(chunks)).None?
  {
    SplitAround(chunks, n);
    FlattenSnoc(chunks[..n], chunks[n]);
    BuildConcat(EmptyTree(), Flatten(chunks[..n]), chunks[n]);
    FlattenConcat(chunks[..n + 1], chunks[n + 1..]);
    BuildConcat(EmptyTree(), Flatten(chunks[..n + 1]), Flatten(chunks[n + 1..]));
  }

  /** The first `n` entries of a chunk lead from one tree to another. */
  predicate Leads(from: Tree, chunk: seq<Entry>, n: nat, to: Tree) {
    n <= |chunk| && Build(from, chunk[..n]) == Some(to)
  }

  lemma {:induction false} LeadsFurther(from: Tree, chunk: seq<Entry>, n: nat, to: Tree, next: Option<Tree>)
    requires n < |chunk| && Leads(from, chunk, n, to) && AddEntry(to, chunk[n]) == next
    ensures next.Some? ==> Leads(from, chunk, n + 1, next.value)
    ensures next.None? ==> Build(from, chunk).None?
  {
    SplitAround(chunk, n);
    BuildOneMore(from, chunk[..n], to, chunk[n], chunk[..n + 1]);
    if next.None? {
      BuildStuck(from, chunk[..n + 1], chunk[n + 1..], chunk);
    }
  }

  /** Once a piece fails, nothing behind it helps. */
  lemma {:induction false} BuildStuck(t: Tree, a: seq<Entry>, b: seq<Entry>, all: seq<Entry>)
    requires Build(t, a).None? && all == a + b
    ensures Build(t, all).None?
  {
    BuildConcat(t, a, b);
  }

  lemma {:induction false} BuildOneMore(from: Tree, es: seq<Entry>, to: Tree, e: Entry, all: seq<Entry>)
    requires Build(from, es) == Some(to) && all == es + [e]
    ensures Build(from, all) == AddEntry(to, e)
  {
    assert all[..|all| - 1] == es;
  }

  // --------------------------------------------------------------- reader

  class Reader {
    var nodes: map<Id, Node>
    var kids: map<Id, map<string, Id>>
    var info: map<Id, Info>
    var curID: nat

    function Contents(): Tree
      reads this
    {
      Tree(nodes, kids, info, curID)
    }

    /** A root directory with nothing in it. */
    constructor ()
      ensures Contents() == EmptyTree()
    {
      nodes := map[ROOT := Node(IMPLICIT_DIR, 1)];
      kids, info := map[], map[];
      curID := ROOT;
    }

    method NextID() returns (r: Option<Id>)
      modifies this`curID
      ensures r == if old(curID) >= MAX_ID then None else Some(old(curID) + 1)
      ensures curID == if r.Some? then r.value else old(curID)
    {
      if curID >= MAX_ID {
        return None;
      }
      curID := curID + 1;
      return Some(curID);
    }

    /** Adds a child to its parent; a directory is one more link to the parent. */
    method AddChild(parent: Id, base: string, id: Id, isDir: bool)
      modifies this`kids, this`nodes
      ensures Contents() == SetChild(old(Contents()), parent, base, id, isDir)
    {
      var children: map<string, Id> := if parent in kids then kids[parent] else map[];
      kids := kids[parent := children[base := id]];
      if isDir && parent in nodes {
        nodes := nodes[parent := nodes[parent].(links := nodes[parent].links + 1)];
      }
      assert kids == SetChild(old(Contents()), parent, base, id, isDir).kids;
    }

    /** Finds a directory or creates it and, after it, the directories above it. The name is in the form
        in which a clean path is split: empty, or clean with a trailing separator. */
    method GetOrCreateDir(dir: string) returns (r: Option<Id>)
      requires dir == DirPrefix(Components(dir))
      modifies this
      ensures match GetOrCreate(old(Contents()), Components(dir))
              case None => r.None?
              case Some(made) => r == Some(made.1) && Contents() == made.0
      decreases Depth(dir)
    {
      NameLookupIsWalk(Contents(), dir);
      var found := GetIDByName(Contents(), dir);
      if found.Some? {
        return if found.value in nodes then found else None;
      }
      var id := NextID();
      if id.None? {
        return None;
      }
      nodes := nodes[id.value := Node(IMPLICIT_DIR, 1)];
      var parentDir := ParentDir(CleanEntryPath(dir));
      ParentNames(dir);
      ParentIsLessDeep(dir);
      var parent := GetOrCreateDir(parentDir);
      if parent.None? {
        return None;
      }
      AddChild(parent.value, BaseName(dir), id.value, true);
      return id;
    }

    /** A hardlink's node is its target's, which gains a link. */
    method LinkToTarget(ent: Entry) returns (r: Option<Id>)
      requires ent.kind.Hardlink?
      modifies this`nodes
      ensures match EntryNode(old(Contents()), ent)
              case None => r.None?
              case Some(made) => r == Some(made.1) && Contents() == made.0
    {
      CleanNameWalks(Contents(), ent.linkName);
      var target := GetIDByName(Contents(), CleanEntryPath(ent.linkName));
      if target.None? || target.value !in nodes {
        return None;
      }
      nodes := nodes[target.value := nodes[target.value].(links := nodes[target.value].links + 1)];
      return target;
    }

    /** A new node with the entry's attributes. */
    method NewEntryNode(ent: Entry) returns (r: Option<Id>)
      modifies this`nodes, this`curID
      ensures match NewNode(old(Contents()), WriteNode(NO_ATTR, ent.AttrOf()), if ent.kind.Dir? then 1 else 0)
              case None => r.None?
              case Some(made) => r == Some(made.1) && Contents() == made.0
    {
      r := NextID();
      if r.Some? {
        nodes := nodes[r.value := Node(WriteNode(NO_ATTR, ent.AttrOf()), if ent.kind.Dir? then 1 else 0)];
      }
    }

    /** Finds or writes the node of an entry. */
    method WriteEntryNode(ent: Entry) returns (r: Option<Id>)
      modifies this`nodes, this`curID
      ensures match EntryNode(old(Contents()), ent)
              case None => r.None?
              case Some(made) => r == Some(made.1) && Contents() == made.0
    {
      if ent.kind.Hardlink? {
        r := LinkToTarget(ent);
        return;
      }
      if ent.kind.Dir? {
        CleanNameWalks(Contents(), ent.name);
        var found := GetIDByName(Contents(), CleanEntryPath(ent.name));
        if found.Some? {
          if found.value !in nodes {
            return None;
          }
          var n := nodes[found.value];
          nodes := nodes[found.value := n.(attr := WriteNode(n.attr, ent.AttrOf()))];
          return found;
        }
      }
      r := NewEntryNode(ent);
    }

    /** One entry: its node, its parent's node, the link between them, and its place in the tar. */
    method InitNode(ent: Entry) returns (ok: bool)
      modifies this
      ensures AddEntry(old(Contents()), ent) == if ok then Some(Contents()) else None
    {
      var cleanName := CleanEntryPath(ent.name);
      var id := WriteEntryNode(ent);
      if id.None? {
        return false;
      }
      ok := FileNode(ent, cleanName, id.value);
    }

    /** Files the node of an entry under its parent, and notes where the entry is in the archive. */
    method FileNode(ent: Entry, cleanName: string, id: Id) returns (ok: bool)
      requires cleanName == CleanEntryPath(ent.name)
      modifies this
      ensures FileEntry(old(Contents()), ent, id) == if ok then Some(Contents()) else None
    {
      EntryNames(ent.name);
      var parent := GetOrCreateDir(ParentDir(cleanName));
      if parent.None? {
        return false;
      }
      AddChild(parent.value, BaseName(cleanName), id, ent.kind.Dir?);
      if !ent.kind.Hardlink? {
        info := info[id := Info(ent.name, ent.uncompressedOffset, ent.tarHeaderOffset,
                                ent.uncompressedOffset - ent.tarHeaderOffset)];
      }
      return true;
    }

    /** One chunk of the table. */
    method InitChunk(chunk: seq<Entry>) returns (ok: bool)
      modifies this
      ensures ok ==> Build(old(Contents()), chunk) == Some(Contents())
      ensures !ok ==> Build(old(Contents()), chunk).None?
    {
      assert chunk[..0] == [];
      for j := 0 to |chunk|
        invariant Leads(old(Contents()), chunk, j, Contents())
      {
        ghost var was := Contents();
        var added := InitNode(chunk[j]);
        LeadsFurther(old(Contents()), chunk, j, was, if added then Some(Contents()) else None);
        if !added {
          return false;
        }
      }
      assert chunk[..|chunk|] == chunk;
      return true;
    }

    /** The whole table, in chunks; the tree does not depend on the chunk size. */
    method InitNodes(toc: seq<Entry>, insertionChunkSize: int) returns (ok: bool)
      requires Contents() == EmptyTree() && insertionChunkSize > 0
      modifies this
      ensures ok ==> Build(EmptyTree(), toc) == Some(Contents())
      ensures !ok ==> Build(EmptyTree(), toc).None?
    {
      var chunks := Partition(toc, insertionChunkSize);
      assert chunks[..0] == [];
      for i := 0 to |chunks|
        invariant BuiltChunks(chunks, i, Contents())
      {
        ghost var was := Contents();
        var added := InitChunk(chunks[i]);
        ChunkBuilt(chunks, i, was, if added then Some(Contents()) else None);
        if !added {
          return false;
        }
      }
      assert chunks[..|chunks|] == chunks;
      return true;
    }

    /** A well-formed table is refused only when it needs more identifiers than there are. */
    method Init(toc: seq<Entry>, chunkSize: int) returns (ok: bool)
      requires Contents() == EmptyTree()
      modifies this
      ensures ok ==> Build(EmptyTree(), toc) == Some(Contents())
      ensures !ok ==> Build(EmptyTree(), toc).None?
      ensures WellFormed(toc) ==> (ok <==> |OwnedPaths(toc)| <= 4294967295)
    {
      ok := InitNodes(toc, if chunkSize <= 0 then DEFAULT_CHUNK_SIZE else chunkSize);
      if WellFormed(toc) { BuildSucceedsIffIdsSuffice(toc); }
    }
  }

  // --------------------------------------------------- names of parents

  lemma {:induction false} ParentNames(dir: string)
    requires dir == DirPrefix(Components(dir)) && Components(dir) != []
    ensures var up := ParentDir(CleanEntryPath(dir));
            && Components(up) == Front(Components(dir)) && up == DirPrefix(Components(up))
    ensures BaseName(dir) == Last(Components(dir))
  {
    var p := Components(dir);
    ComponentsNormal(dir);
    SplitOfJoin(p);
    BaseOfJoin(p);
    ComponentsOfJoin(Front(p));
  }

  lemma {:induction false} EntryNames(name: string)
    ensures var up := ParentDir(CleanEntryPath(name));
            && Components(up) == ParentOf(Components(name)) && up == DirPrefix(Components(up))
    ensures BaseName(CleanEntryPath(name)) == NameOf(Components(name))
  {
    var p := Components(name);
    ComponentsNormal(name);
    if p != [] {
      SplitOfJoin(p);
      BaseOfJoin(p);
      ComponentsOfJoin(Front(p));
    }
  }

  lemma {:induction false} CleanNameWalks(t: Tree, name: string)
    ensures GetIDByName(t, CleanEntryPath(name)) == Lookup(t, Components(name))
  {
    var p := Components(name);
    ComponentsNormal(name);
    ComponentsOfJoin(p);
    NameLookupIsWalk(t, Join(p));
  }
}
