/**
 Directories as a FUSE mount shows them: whiteout files of the layer appear as the names they hide, and
 a directory caches its entries and the children already looked up.
 */
module DirListing {
  import opened Base

  type Id = nat

  const WHITEOUT := ".wh."
  const OPAQUE := ".wh..wh..opq"
  const STATE_DIR := ".soci-snapshotter"
  const MAX_UINT32: nat := 0xFFFF_FFFF

  // -------------------------------------------------------------- inodes

  /** The inode of a node: the layer's base above, three more than the identifier below. */
  function InodeOfID(base: nat, id: Id): Option<nat> {
    if id > MAX_UINT32 - 3 then None else Some(base * 0x1_0000_0000 + 3 + id)
  }

  function InodeOfState(base: nat): nat {
    base * 0x1_0000_0000 + 1
  }

  function InodeOfStatFile(base: nat): nat {
    base * 0x1_0000_0000 + 2
  }

  /** Inodes tell layers and nodes apart and keep clear of the reserved ones of every layer. */
  lemma {:induction false} InodesAreDistinct(base: nat, id: Id, base': nat, id': Id)
    requires InodeOfID(base, id).Some?
    ensures InodeOfID(base', id').Some? && InodeOfID(base, id) == InodeOfID(base', id') ==> base == base' && id == id'
    ensures InodeOfID(base, id).value != InodeOfState(base') && InodeOfID(base, id).value != InodeOfStatFile(base')
    ensures InodeOfID(base, id).value != base' * 0x1_0000_0000 && InodeOfState(base) != InodeOfStatFile(base')
    ensures InodeOfID(base, id).value / 0x1_0000_0000 == base
    ensures InodeOfState(base) % 0x1_0000_0000 == 1 && InodeOfState(base) / 0x1_0000_0000 == base
    ensures InodeOfStatFile(base) % 0x1_0000_0000 == 2 && InodeOfStatFile(base) / 0x1_0000_0000 == base
  {
    if base < base' {
      assert base' * 0x1_0000_0000 >= base * 0x1_0000_0000 + 0x1_0000_0000;
    } else if base' < base {
      assert base * 0x1_0000_0000 >= base' * 0x1_0000_0000 + 0x1_0000_0000;
    }
  }

  // ----------------------------------------------------------- visibility

  /** The directory of a layer: its children, the layer's inode base, and whether it is the root. */
  datatype Dir = Dir(kids: map<string, Id>, base: nat, isRoot: bool)

  predicate Hidden(name: string) {
    WHITEOUT <= name
  }

  predicate IsWhiteout(name: string) {
    Hidden(name) && name != OPAQUE
  }

  /** A child of its own name, or a whiteout of the name. */
  predicate Listed(d: Dir, name: string) {
    (name in d.kids && !Hidden(name)) || (WHITEOUT + name in d.kids && WHITEOUT + name != OPAQUE)
  }

  datatype Outcome = NoEntry | IOError | StateDir | Child(id: Id, ino: nat) | WhiteoutOf(id: Id, ino: nat)

  function Opened(d: Dir, id: Id, whiteout: bool): Outcome {
    match InodeOfID(d.base, id)
    case None => IOError
    case Some(ino) => if whiteout then WhiteoutOf(id, ino) else Child(id, ino)
  }

  /** What a lookup finds when nothing is cached. */
  function FreshLookup(d: Dir, name: string): Outcome {
    if Hidden(name) then NoEntry
    else if d.isRoot && name == STATE_DIR then StateDir
    else if name in d.kids then Opened(d, d.kids[name], false)
    else if WHITEOUT + name in d.kids then Opened(d, d.kids[WHITEOUT + name], true)
    else NoEntry
  }

  lemma {:induction false} StripPrefix(w: string)
    requires Hidden(w)
    ensures WHITEOUT + w[|WHITEOUT|..] == w
  {
  }

  /** The opaque marker hides a name that is hidden itself. */
  lemma {:induction false} OpaqueIsDouble(name: string)
    requires WHITEOUT + name == OPAQUE
    ensures Hidden(name)
  {
    assert name == OPAQUE[|WHITEOUT|..];
  }

  /** Whatever a lookup finds is listed. */
  lemma {:induction false} FoundIsListed(d: Dir, name: string)
    requires !(d.isRoot && name == STATE_DIR) && FreshLookup(d, name) != NoEntry
    ensures Listed(d, name)
  {
    if WHITEOUT + name == OPAQUE { OpaqueIsDouble(name); }
  }

  /** Identifier `id` has the inode `ino`; the three largest identifiers have none. */
  predicate HasInode(d: Dir, id: Id, ino: nat) {
    id <= 4294967292 && ino == d.base * 4294967296 + id + 3
  }

  /** What a lookup shows: the state directory in a root only; a child of the name, if it has one that is no
      whiteout itself; a whiteout of the name if it has only that; each with the identifier and the inode of
      what was found, and an error where that has no inode. */
  lemma {:induction false} LookupShows(d: Dir, name: string)
    ensures var r, hidden := FreshLookup(d, name), ".wh." <= name;
            var state := d.isRoot && name == ".soci-snapshotter";
            var child := !hidden && !state && name in d.kids;
            var gone := !hidden && !state && name !in d.kids && ".wh." + name in d.kids;
            && (r == StateDir <==> !hidden && state)
            && (r.Child? ==> child && r.id == d.kids[name] && HasInode(d, r.id, r.ino))
            && (r.WhiteoutOf? ==> gone && r.id == d.kids[".wh." + name] && HasInode(d, r.id, r.ino))
            && (r == IOError <==> (child && d.kids[name] > 4294967292) || (gone && d.kids[".wh." + name] > 4294967292))
            && (r == NoEntry <==> hidden || (!state && !child && !gone))
  {
  }

  /** The marker of an opaque directory is neither listed nor found, under any name. */
  lemma {:induction false} OpaqueMarkerIsUnseen(id: Id, base: nat, name: string)
    ensures var d := Dir(map[".wh..wh..opq" := id], base, false);
            !Listed(d, name) && FreshLookup(d, name) == NoEntry
  {
    if WHITEOUT + name == OPAQUE { OpaqueIsDouble(name); }
  }

  /** No whiteout hides a whiteout, the opaque marker aside. */
  predicate NoDoubleWhiteouts(d: Dir) {
    forall w | w in d.kids && IsWhiteout(w) :: !Hidden(w[|WHITEOUT|..])
  }

  /** Listing and lookup agree on every name exactly when no whiteout hides a whiteout. */
  lemma {:induction false} ListedIffFound(d: Dir)
    ensures (forall name :: !(d.isRoot && name == STATE_DIR) ==> (Listed(d, name) <==> FreshLookup(d, name) != NoEntry))
      <==> NoDoubleWhiteouts(d)
  {
    if NoDoubleWhiteouts(d) {
      forall name | !(d.isRoot && name == STATE_DIR) ensures Listed(d, name) <==> FreshLookup(d, name) != NoEntry {
        if FreshLookup(d, name) != NoEntry { FoundIsListed(d, name); }
        if WHITEOUT + name in d.kids && WHITEOUT + name != OPAQUE {
          assert (WHITEOUT + name)[|WHITEOUT|..] == name;
        }
      }
    } else {
      var w :| w in d.kids && IsWhiteout(w) && Hidden(w[|WHITEOUT|..]);
      StripPrefix(w);
      var name := w[|WHITEOUT|..];
      assert name[1] == WHITEOUT[1] && STATE_DIR[1] == 's';
      assert Listed(d, name) && FreshLookup(d, name) == NoEntry;
    }
  }

  /** Such a directory: the whiteout of a whiteout is listed, and looking it up finds nothing. */
  lemma {:induction false} DoubleWhiteoutIsNotFound(id: Id, base: nat)
    ensures var d := Dir(map[".wh..wh.x" := id], base, false);
            Listed(d, ".wh.x") && FreshLookup(d, ".wh.x") == NoEntry
  {
    assert WHITEOUT + ".wh.x" == ".wh..wh.x";
    assert ".wh..wh.x"[8] == 'x' && OPAQUE[8] == '.';
  }

  // ------------------------------------------------------------- the node

  datatype DirEntry = DirEntry(name: string, whiteout: bool, ino: nat)

  /** What an entry of the listing says is true. */
  predicate EntryOk(d: Dir, e: DirEntry) {
    if e.whiteout then
      && WHITEOUT + e.name in d.kids && WHITEOUT + e.name != OPAQUE && !(e.name in d.kids && !Hidden(e.name))
      && InodeOfID(d.base, d.kids[WHITEOUT + e.name]) == Some(e.ino)
    else
      e.name in d.kids && !Hidden(e.name) && InodeOfID(d.base, d.kids[e.name]) == Some(e.ino)
  }

  predicate Names(ents: seq<DirEntry>, name: string) {
    exists i :: 0 <= i < |ents| && ents[i].name == name
  }

  /** Every listed name once, with the right inode. */
  ghost predicate ListingOf(d: Dir, ents: seq<DirEntry>) {
    && (forall i :: 0 <= i < |ents| ==> EntryOk(d, ents[i]))
    && (forall i, j :: 0 <= i < j < |ents| ==> ents[i].name != ents[j].name)
    && (forall name :: Listed(d, name) ==> Names(ents, name))
  }

  lemma {:induction false} ListingNames(d: Dir, ents: seq<DirEntry>, name: string)
    requires ListingOf(d, ents)
    ensures Names(ents, name) <==> Listed(d, name)
  {
    if i :| 0 <= i < |ents| && ents[i].name == name {
      assert EntryOk(d, ents[i]);
    }
  }

  /** The inode a listed name has to have. */
  function ListedInode(d: Dir, name: string): Option<nat>
    requires Listed(d, name)
  {
    InodeOfID(d.base, d.kids[if name in d.kids && !Hidden(name) then name else WHITEOUT + name])
  }

  /** A listed name that has no inode. */
  ghost predicate SomeNameWithoutInode(d: Dir) {
    exists name :: Listed(d, name) && ListedInode(d, name).None?
  }

  // --------------------------------------------------------------- order

  /** Names are compared character by character. */
  predicate NameLess(a: string, b: string) {
    b != "" && (a == "" || a[0] < b[0] || (a[0] == b[0] && NameLess(a[1..], b[1..])))
  }

  lemma {:induction false} NamesAreOrdered(a: string, b: string)
    ensures a == b || NameLess(a, b) || NameLess(b, a)
    ensures !(NameLess(a, b) && NameLess(b, a)) && !NameLess(a, a)
  {
    if a != "" {
      NamesAreOrdered(a[1..], if b != "" then b[1..] else "");
      assert a == [a[0]] + a[1..];
      if b != "" { assert b == [b[0]] + b[1..]; }
    }
  }

  lemma {:induction false} NameLessTransitive(a: string, b: string, c: string)
    requires NameLess(a, b) && NameLess(b, c)
    ensures NameLess(a, c)
  {
    if a != "" && a[0] == b[0] == c[0] { NameLessTransitive(a[1..], b[1..], c[1..]); }
  }

  /** Every entry has a smaller name than those behind it. */
  predicate ByName(ents: seq<DirEntry>) {
    forall i, j :: 0 <= i < j < |ents| ==> NameLess(ents[i].name, ents[j].name)
  }

  /** Puts an entry at its place in a sorted list. */
  function Insert(ents: seq<DirEntry>, e: DirEntry): seq<DirEntry> {
    if ents == [] || !NameLess(e.name, ents[|ents| - 1].name) then ents + [e]
    else Insert(ents[..|ents| - 1], e) + [ents[|ents| - 1]]
  }

  /** A sort by name. Since names differ, any other algorithm gives the same list: see `SortedListIsUnique`. */
  function SortByName(ents: seq<DirEntry>): seq<DirEntry> {
    if ents == [] then [] else Insert(SortByName(ents[..|ents| - 1]), ents[|ents| - 1])
  }

  lemma {:induction false} InsertHas(ents: seq<DirEntry>, e: DirEntry, x: DirEntry)
    ensures x in Insert(ents, e) <==> x in ents || x == e
  {
    if ents != [] && NameLess(e.name, ents[|ents| - 1].name) {
      InsertHas(ents[..|ents| - 1], e, x);
      assert ents == ents[..|ents| - 1] + [ents[|ents| - 1]];
    }
  }

  lemma {:induction false} InsertKeepsOrder(ents: seq<DirEntry>, e: DirEntry)
    requires ByName(ents) && forall i :: 0 <= i < |ents| ==> ents[i].name != e.name
    ensures ByName(Insert(ents, e))
  {
    if ents != [] {
      var front, last := ents[..|ents| - 1], ents[|ents| - 1];
      if NameLess(e.name, last.name) {
        InsertKeepsOrder(front, e);
        var before := Insert(front, e);
        forall i | 0 <= i < |before| ensures NameLess(before[i].name, last.name) {
          InsertHas(front, e, before[i]);
        }
      } else {
        NamesAreOrdered(e.name, last.name);
        forall i | 0 <= i < |ents| ensures NameLess(ents[i].name, e.name) {
          if i < |front| { NameLessTransitive(ents[i].name, last.name, e.name); }
        }
      }
    }
  }

  /** Sorting keeps the entries and puts them in order. */
  lemma {:induction false} SortSorts(ents: seq<DirEntry>)
    requires forall i, j :: 0 <= i < j < |ents| ==> ents[i].name != ents[j].name
    ensures ByName(SortByName(ents)) && forall x :: x in SortByName(ents) <==> x in ents
  {
    if ents != [] {
      var front, last := ents[..|ents| - 1], ents[|ents| - 1];
      SortSorts(front);
      var sorted := SortByName(front);
      forall i | 0 <= i < |sorted| ensures sorted[i].name != last.name {
        assert sorted[i] in front;
      }
      InsertKeepsOrder(sorted, last);
      assert ents == front + [last];
      forall x ensures x in Insert(sorted, last) <==> x in ents { InsertHas(sorted, last, x); }
    }
  }

  lemma {:induction false} FirstInOrder(a: seq<DirEntry>, b: seq<DirEntry>)
    requires ByName(a) && ByName(b) && a != [] && b != [] && a[0] in b && b[0] in a
    ensures a[0] == b[0]
  {
    var j :| 0 <= j < |a| && a[j] == b[0];
    var k :| 0 <= k < |b| && b[k] == a[0];
    NamesAreOrdered(a[0].name, b[0].name);
  }

  lemma {:induction false} TailInOrder(a: seq<DirEntry>, x: DirEntry)
    requires ByName(a) && a != []
    ensures ByName(a[1..]) && (x in a[1..] <==> x in a && x != a[0])
  {
    assert a == [a[0]] + a[1..];
    NamesAreOrdered(a[0].name, a[0].name);
    if x in a[1..] {
      var i :| 0 <= i < |a[1..]| && a[1..][i] == x;
      assert NameLess(a[0].name, a[i + 1].name);
    }
  }

  /** Two sorted lists of the same entries are the same list. */
  lemma {:induction false} SortedListIsUnique(a: seq<DirEntry>, b: seq<DirEntry>)
    requires ByName(a) && ByName(b) && forall x :: x in a <==> x in b
    ensures a == b
  {
    assert a == [] <==> b == [] by {
      if a != [] { assert a[0] in b; }
      if b != [] { assert b[0] in a; }
    }
    if a != [] {
      FirstInOrder(a, b);
      forall x ensures x in a[1..] <==> x in b[1..] {
        TailInOrder(a, x);
        TailInOrder(b, x);
      }
      TailInOrder(a, a[0]);
      TailInOrder(b, b[0]);
      SortedListIsUnique(a[1..], b[1..]);
      assert a == [a[0]] + a[1..] && b == [b[0]] + b[1..];
    }
  }

  /** Sorting a listing gives a listing. */
  lemma {:induction false} SortedListing(d: Dir, ents: seq<DirEntry>)
    requires ListingOf(d, ents)
    ensures ListingOf(d, SortByName(ents)) && ByName(SortByName(ents))
  {
    SortSorts(ents);
    var sorted := SortByName(ents);
    forall i | 0 <= i < |sorted| ensures EntryOk(d, sorted[i]) { assert sorted[i] in ents; }
    forall i, j | 0 <= i < j < |sorted| ensures sorted[i].name != sorted[j].name {
      NamesAreOrdered(sorted[i].name, sorted[j].name);
    }
    forall name | Listed(d, name) ensures Names(sorted, name) {
      var i :| 0 <= i < |ents| && ents[i].name == name;
      assert ents[i] in sorted;
    }
  }

  lemma {:induction false} EntryByName(d: Dir, a: seq<DirEntry>, b: seq<DirEntry>, x: DirEntry)
    requires ListingOf(d, a) && ListingOf(d, b) && x in a
    ensures x in b
  {
    var i :| 0 <= i < |a| && a[i] == x;
    assert EntryOk(d, a[i]) && Names(a, x.name);
    ListingNames(d, a, x.name);
    var k :| 0 <= k < |b| && b[k].name == x.name;
    assert EntryOk(d, b[k]);
  }

  /** A directory has one listing: in whatever order its children are visited, it shows the same entries in
      the same order. */
  lemma {:induction false} ListingIsDetermined(d: Dir, a: seq<DirEntry>, b: seq<DirEntry>)
    requires ListingOf(d, a) && ByName(a) && ListingOf(d, b) && ByName(b)
    ensures a == b
  {
    forall x ensures x in a <==> x in b {
      if x in a { EntryByName(d, a, b, x); }
      if x in b { EntryByName(d, b, a, x); }
    }
    SortedListIsUnique(a, b);
  }

  /** A listing has an inode for every listed name. */
  lemma {:induction false} ListingHasInodes(d: Dir, ents: seq<DirEntry>)
    requires ListingOf(d, ents)
    ensures !SomeNameWithoutInode(d)
  {
    forall name | Listed(d, name) ensures ListedInode(d, name).Some? {
      var i :| 0 <= i < |ents| && ents[i].name == name;
      assert EntryOk(d, ents[i]);
    }
  }

  // ------------------------------------------------------------ visiting

  /** The children in the order they are visited. */
  ghost predicate VisitOf(d: Dir, order: seq<string>) {
    (forall i, j :: 0 <= i < j < |order| ==> order[i] != order[j]) && forall n :: n in order <==> n in d.kids
  }

  /** The listing restricted to what was visited. */
  ghost predicate PartOf(d: Dir, seen: seq<string>, ents: seq<DirEntry>) {
    && (forall i :: 0 <= i < |ents| ==> EntryOk(d, ents[i]) && !ents[i].whiteout && ents[i].name in seen)
    && (forall i, j :: 0 <= i < j < |ents| ==> ents[i].name != ents[j].name)
    && (forall n :: n in seen && !Hidden(n) ==> Names(ents, n))
  }

  class Node {
    const d: Dir
    var entsCached: bool
    var ents: seq<DirEntry>
    /** Children handed out by earlier lookups and still in memory. */
    var memory: map<string, Outcome>

    /** What is cached is what would be found afresh. */
    ghost predicate Valid()
      reads this
    {
      && (entsCached ==> ListingOf(d, ents) && ByName(ents))
      && (forall name | name in memory ::
            memory[name] == FreshLookup(d, name) && (memory[name].Child? || memory[name].WhiteoutOf?)
            && !(d.isRoot && name == STATE_DIR))
    }

    constructor (dir: Dir)
      ensures d == dir && Valid() && !entsCached && memory == map[]
    {
      d := dir;
      entsCached, ents, memory := false, [], map[];
    }

    /** The children that are not whiteouts; whiteouts are put aside. */
    method VisitChildren(order: seq<string>) returns (r: Option<seq<DirEntry>>, whiteouts: seq<string>)
      requires VisitOf(d, order)
      ensures r.Some? ==> PartOf(d, order, r.value)
      ensures r.Some? ==> forall w :: w in whiteouts <==> w in order && IsWhiteout(w)
      ensures r.Some? ==> forall i, j :: 0 <= i < j < |whiteouts| ==> whiteouts[i] != whiteouts[j]
      ensures r.None? ==> SomeNameWithoutInode(d)
    {
      var list: seq<DirEntry> := [];
      whiteouts := [];
      for i := 0 to |order|
        invariant PartOf(d, order[..i], list)
        invariant forall w :: w in whiteouts <==> w in order[..i] && IsWhiteout(w)
        invariant forall a, b :: 0 <= a < b < |whiteouts| ==> whiteouts[a] != whiteouts[b]
      {
        var name := order[i];
        assert name in order;
        assert order[..i + 1] == order[..i] + [name] && name !in order[..i];
        if Hidden(name) {
          if name != OPAQUE {
            whiteouts := whiteouts + [name];
          }
        } else {
          var ino := InodeOfID(d.base, d.kids[name]);
          if ino.None? {
            assert Listed(d, name) && ListedInode(d, name).None?;
            return None, [];
          }
          AddNormal(d, order[..i], list, name, ino.value);
          list := list + [DirEntry(name, false, ino.value)];
        }
      }
      assert order[..|order|] == order;
      return Some(list), whiteouts;
    }

    /** Whiteouts are shown as the names they hide, unless something replaces those. */
    method AppendWhiteouts(normal: seq<DirEntry>, whiteouts: seq<string>) returns (r: Option<seq<DirEntry>>)
      requires WithWhiteouts(d, [], normal) && forall w :: w in whiteouts <==> w in d.kids && IsWhiteout(w)
      requires forall i, j :: 0 <= i < j < |whiteouts| ==> whiteouts[i] != whiteouts[j]
      ensures r.Some? ==> ListingOf(d, r.value)
      ensures r.None? ==> SomeNameWithoutInode(d)
    {
      var list := normal;
      for i := 0 to |whiteouts|
        invariant WithWhiteouts(d, whiteouts[..i], list)
      {
        var w := whiteouts[i];
        assert w in whiteouts;
        var name := w[|WHITEOUT|..];
        assert whiteouts[..i + 1] == whiteouts[..i] + [w] && w !in whiteouts[..i];
        if name !in d.kids || Hidden(name) {
          var ino := InodeOfID(d.base, d.kids[w]);
          if ino.None? {
            StripPrefix(w);
            assert Listed(d, name) && ListedInode(d, name).None?;
            return None;
          }
          AddWhiteout(d, whiteouts[..i], list, w, ino.value);
          list := list + [DirEntry(name, true, ino.value)];
        } else {
          SkipWhiteout(d, whiteouts[..i], list, w);
        }
      }
      assert whiteouts[..|whiteouts|] == whiteouts;
      ListingComplete(d, whiteouts, list);
      return Some(list);
    }

    /** The listing in order of names, from the cache if it is there. */
    method Readdir(order: seq<string>) returns (r: Option<seq<DirEntry>>)
      requires Valid() && VisitOf(d, order)
      modifies this`ents, this`entsCached
      ensures Valid() && (r.Some? ==> ListingOf(d, r.value) && ByName(r.value) && entsCached && ents == r.value)
      ensures r.None? <==> SomeNameWithoutInode(d)
      ensures r.None? || old(entsCached) ==> ents == old(ents) && entsCached == old(entsCached)
    {
      if entsCached {
        ListingHasInodes(d, ents);
        return Some(ents);
      }
      var normal, whiteouts := VisitChildren(order);
      if normal.None? {
        return None;
      }
      var list := AppendWhiteouts(normal.value, whiteouts);
      if list.None? {
        return None;
      }
      SortedListing(d, list.value);
      ListingHasInodes(d, list.value);
      ents, entsCached := SortByName(list.value), true;
      return Some(ents);
    }

    /** A lookup gives the same answer whatever was listed or looked up before. */
    method Lookup(name: string, order: seq<string>) returns (r: Outcome)
      requires Valid() && VisitOf(d, order)
      modifies this
      ensures Valid() && r == FreshLookup(d, name)
      ensures memory == if r.Child? || r.WhiteoutOf? then old(memory)[name := r] else old(memory)
      ensures old(entsCached) ==> entsCached && ents == old(ents)
      ensures r == NoEntry && !Hidden(name) && !SomeNameWithoutInode(d) ==> entsCached
    {
      if Hidden(name) {
        return NoEntry;
      }
      if d.isRoot && name == STATE_DIR {
        return StateDir;
      }
      if name in memory {
        return memory[name];
      }
      if entsCached {
        ListingNames(d, ents, name);
        var found := FindName(ents, name);
        if !found {
          if FreshLookup(d, name) != NoEntry { FoundIsListed(d, name); }
          return NoEntry;
        }
      }
      if name in d.kids {
        r := Opened(d, d.kids[name], false);
      } else if WHITEOUT + name in d.kids {
        r := Opened(d, d.kids[WHITEOUT + name], true);
      } else {
        var _ := Readdir(order);
        return NoEntry;
      }
      if r.Child? || r.WhiteoutOf? {
        memory := memory[name := r];
      }
    }

    /** The kernel drops a child. */
    method Forget(name: string)
      requires Valid()
      modifies this`memory
      ensures Valid() && memory == old(memory) - {name}
    {
      memory := memory - {name};
    }
  }

  method FindName(ents: seq<DirEntry>, name: string) returns (found: bool)
    ensures found <==> Names(ents, name)
  {
    found := false;
    for i := 0 to |ents|
      invariant found <==> Names(ents[..i], name)
    {
      if ents[i].name == name {
        found := true;
        assert ents[..i + 1][i].name == name;
      } else if Names(ents[..i], name) {
        ghost var k :| 0 <= k < i && ents[..i][k].name == name;
        assert ents[..i + 1][k].name == name;
      }
      assert forall k :: 0 <= k < i ==> ents[..i + 1][k] == ents[..i][k];
    }
    assert ents[..|ents|] == ents;
  }

  // ------------------------------------------------------- listing lemmas

  lemma {:induction false} NamesSnoc(ents: seq<DirEntry>, e: DirEntry, name: string)
    ensures Names(ents + [e], name) <==> Names(ents, name) || e.name == name
  {
    var all := ents + [e];
    assert all[|ents|] == e;
    if Names(ents, name) {
      var i :| 0 <= i < |ents| && ents[i].name == name;
      assert all[i].name == name;
    }
  }

  lemma {:induction false} AddNormal(d: Dir, seen: seq<string>, ents: seq<DirEntry>, name: string, ino: nat)
    requires PartOf(d, seen, ents) && name !in seen && name in d.kids && !Hidden(name)
    requires InodeOfID(d.base, d.kids[name]) == Some(ino)
    ensures PartOf(d, seen + [name], ents + [DirEntry(name, false, ino)])
  {
    forall n ensures Names(ents + [DirEntry(name, false, ino)], n) <==> Names(ents, n) || name == n {
      NamesSnoc(ents, DirEntry(name, false, ino), n);
    }
  }

  /** All normal entries, and those whiteouts visited that are not replaced. */
  ghost predicate WithWhiteouts(d: Dir, seen: seq<string>, ents: seq<DirEntry>) {
    && (forall i :: 0 <= i < |ents| ==> EntryOk(d, ents[i]) && (ents[i].whiteout ==> WHITEOUT + ents[i].name in seen))
    && (forall i, j :: 0 <= i < j < |ents| ==> ents[i].name != ents[j].name)
    && (forall n :: n in d.kids && !Hidden(n) ==> Names(ents, n))
    && (forall w {:trigger w in seen} :: w in seen && IsWhiteout(w) ==> Names(ents, w[|WHITEOUT|..]))
  }

  lemma {:induction false} AddWhiteout(d: Dir, seen: seq<string>, ents: seq<DirEntry>, w: string, ino: nat)
    requires WithWhiteouts(d, seen, ents) && w !in seen && w in d.kids && IsWhiteout(w)
    requires var name := w[|WHITEOUT|..]; (name !in d.kids || Hidden(name)) && InodeOfID(d.base, d.kids[w]) == Some(ino)
    ensures WithWhiteouts(d, seen + [w], ents + [DirEntry(w[|WHITEOUT|..], true, ino)])
  {
    StripPrefix(w);
    var e := DirEntry(w[|WHITEOUT|..], true, ino);
    forall n ensures Names(ents + [e], n) <==> Names(ents, n) || e.name == n { NamesSnoc(ents, e, n); }
    forall i | 0 <= i < |ents| ensures ents[i].name != e.name {
      assert EntryOk(d, ents[i]);
    }
  }

  lemma {:induction false} SkipWhiteout(d: Dir, seen: seq<string>, ents: seq<DirEntry>, w: string)
    requires WithWhiteouts(d, seen, ents) && IsWhiteout(w) && w[|WHITEOUT|..] in d.kids && !Hidden(w[|WHITEOUT|..])
    ensures WithWhiteouts(d, seen + [w], ents)
  {
  }

  lemma {:induction false} ListingComplete(d: Dir, whiteouts: seq<string>, ents: seq<DirEntry>)
    requires WithWhiteouts(d, whiteouts, ents) && forall w :: w in d.kids && IsWhiteout(w) ==> w in whiteouts
    ensures ListingOf(d, ents)
  {
    forall name | Listed(d, name) ensures Names(ents, name) {
      if !(name in d.kids && !Hidden(name)) {
        var w := WHITEOUT + name;
        assert w in whiteouts && w[|WHITEOUT|..] == name;
      }
    }
  }
}
