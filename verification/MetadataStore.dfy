/**
 The metadata buckets of the database: one child of a node is stored inline, whichever comes first, the
 others in a bucket of their own; identifiers are stored as four bytes, most significant first.
 */
module MetadataStore {
  import opened Base
  import opened Paths
  import opened MetadataTree

  // ---------------------------------------------------------- identifiers

  function EncodeID(id: Id): Bytes
    requires id <= MAX_ID
  {
    [id / 256 / 256 / 256, id / 256 / 256 % 256, id / 256 % 256, id % 256]
  }

  function DecodeID(b: Bytes): Id
    requires |b| == 4
  {
    ((b[0] as int * 256 + b[1]) * 256 + b[2]) * 256 + b[3]
  }

  lemma {:induction false} DecodeEncode(id: Id)
    requires id <= MAX_ID
    ensures DecodeID(EncodeID(id)) == id
  {
    var high := id / 256;
    assert id == high * 256 + id % 256 && high == high / 256 * 256 + high % 256;
  }

  /** Byte order is number order: the first differing byte decides. */
  predicate BytesLess(a: Bytes, b: Bytes)
    requires |a| == |b|
  {
    a != [] && (a[0] < b[0] || (a[0] == b[0] && BytesLess(a[1..], b[1..])))
  }

  lemma {:induction false} EncodedOrder(a: Id, b: Id)
    requires a <= MAX_ID && b <= MAX_ID
    ensures BytesLess(EncodeID(a), EncodeID(b)) <==> a < b
  {
    DecodeEncode(a);
    DecodeEncode(b);
    var x, y := EncodeID(a), EncodeID(b);
    assert BytesLess(x, y) == (x[0] < y[0] || (x[0] == y[0] && BytesLess(x[1..], y[1..])));
    assert BytesLess(x[1..], y[1..]) == (x[1] < y[1] || (x[1] == y[1] && BytesLess(x[2..], y[2..]))) by {
      assert x[1..][1..] == x[2..] && y[1..][1..] == y[2..];
    }
    assert BytesLess(x[2..], y[2..]) == (x[2] < y[2] || (x[2] == y[2] && BytesLess(x[3..], y[3..]))) by {
      assert x[2..][1..] == x[3..] && y[2..][1..] == y[3..];
    }
    assert BytesLess(x[3..], y[3..]) == (x[3] < y[3]) by {
      assert x[3..][1..] == [] && y[3..][1..] == [];
    }
  }

  // ------------------------------------------------------------- children

  /** The inline child, the bucket of the other children, and where the entry is in the archive. */
  datatype MetaBucket = MetaBucket(childName: string, childID: Bytes, extra: Option<map<string, Bytes>>, info: Info)

  predicate Storable(children: map<string, Id>) {
    forall n | n in children :: n != "" && children[n] <= MAX_ID
  }

  /** An entry as written, child `first` inline if there are children. */
  function StoredAs(children: map<string, Id>, first: string, info: Info): MetaBucket
    requires Storable(children) && (children != map[] ==> first in children)
  {
    if children == map[] then MetaBucket("", [], None, info)
    else MetaBucket(first, EncodeID(children[first]), ExtraBucket(children, children.Keys - {first}), info)
  }

  function ExtraBucket(children: map<string, Id>, names: set<string>): Option<map<string, Bytes>>
    requires Storable(children) && names <= children.Keys
  {
    if names == {} then None else Some(map n | n in names :: EncodeID(children[n]))
  }

  /** Writes the entry of a node; `first` is the child a map iteration met first, `keys` are the names in the
      order they are written. */
  method WriteMetadataEntry(children: map<string, Id>, keys: seq<string>, first: string, info: Info)
    returns (b: MetaBucket)
    requires Storable(children) && (children != map[] ==> first in children)
    requires forall n :: n in keys <==> n in children
    ensures b == StoredAs(children, first, info)
  {
    b := MetaBucket("", [], None, info);
    if |children| > 0 {
      var extra := WriteExtraChildren(children, keys, first);
      b := MetaBucket(first, EncodeID(children[first]), extra, info);
    }
  }

  method WriteExtraChildren(children: map<string, Id>, keys: seq<string>, first: string)
    returns (extra: Option<map<string, Bytes>>)
    requires Storable(children) && first in children
    requires forall n :: n in keys <==> n in children
    ensures extra == ExtraBucket(children, children.Keys - {first})
  {
    extra := None;
    if |children| <= 1 {
      OnlyChild(children, first);
      return;
    }
    ghost var names: set<string> := {};
    for i := 0 to |keys|
      invariant names == (set n | n in keys[..i] && n != first) <= children.Keys
      invariant extra == ExtraBucket(children, names)
    {
      assert keys[..i + 1] == keys[..i] + [keys[i]];
      if keys[i] != first {
        ExtraBucketGrows(children, names, keys[i]);
        var others := if extra.None? then map[] else extra.value;
        extra := Some(others[keys[i] := EncodeID(children[keys[i]])]);
        names := names + {keys[i]};
      }
    }
    assert names == children.Keys - {first};
  }

  lemma {:induction false} ExtraBucketGrows(children: map<string, Id>, names: set<string>, n: string)
    requires Storable(children) && names <= children.Keys && n in children
    ensures var was := ExtraBucket(children, names);
            var others := if was.None? then map[] else was.value;
            ExtraBucket(children, names + {n}) == Some(others[n := EncodeID(children[n])])
  {
    assert n in names + {n};
    var was := ExtraBucket(children, names);
    var others := if was.None? then map[] else was.value;
    assert ExtraBucket(children, names + {n}).value == others[n := EncodeID(children[n])];
  }

  lemma {:induction false} OnlyChild(children: map<string, Id>, first: string)
    requires first in children && |children| <= 1
    ensures children.Keys - {first} == {}
  {
    assert |children.Keys - {first}| == |children| - 1;
  }

  function ReadChild(b: MetaBucket, base: string): Option<Id> {
    if base == b.childName then (if |b.childID| == 4 then Some(DecodeID(b.childID)) else None)
    else if b.extra.None? || base !in b.extra.value then None
    else if |b.extra.value[base]| != 4 then None
    else Some(DecodeID(b.extra.value[base]))
  }

  /** What visiting the children of a node shows. */
  function Listing(b: MetaBucket): map<string, Id> {
    var inline: map<string, Id> :=
      if b.childName != "" && |b.childID| == 4 then map[b.childName := DecodeID(b.childID)] else map[];
    if b.extra.None? then inline
    else inline + map n | n in b.extra.value && |b.extra.value[n]| == 4 :: DecodeID(b.extra.value[n])
  }

  /** Whichever child is inline, every child is found by its name and nothing else is. */
  lemma {:induction false} StoredAsReads(children: map<string, Id>, first: string, info: Info, base: string)
    requires Storable(children) && (children != map[] ==> first in children) && base != ""
    ensures ReadChild(StoredAs(children, first, info), base) == if base in children then Some(children[base]) else None
  {
    if base in children {
      DecodeEncode(children[base]);
      assert base == first || base in children.Keys - {first};
    }
  }

  /** Whichever child is inline, the children listed are those written. */
  lemma {:induction false} StoredAsLists(children: map<string, Id>, first: string, info: Info)
    requires Storable(children) && (children != map[] ==> first in children)
    ensures Listing(StoredAs(children, first, info)) == children
  {
    var b := StoredAs(children, first, info);
    forall n | n in children ensures n in Listing(b) && Listing(b)[n] == children[n] {
      DecodeEncode(children[n]);
      assert n == first || n in children.Keys - {first};
    }
    assert Listing(b).Keys <= children.Keys;
  }

  // ---------------------------------------------------------- whole trees

  predicate TreeStorable(t: Tree) {
    forall d | d in t.kids :: t.kids[d] != map[] && Storable(t.kids[d])
  }

  predicate Picks(t: Tree, pick: map<Id, string>) {
    forall d | d in t.kids :: d in pick && pick[d] in t.kids[d]
  }

  /** What is stored of the place of a node that no entry listed. */
  const NO_INFO := Info("", 0, 0, 0)

  function InfoAt(t: Tree, d: Id): Info {
    if d in t.info then t.info[d] else NO_INFO
  }

  function StoredNode(t: Tree, pick: map<Id, string>, d: Id): MetaBucket
    requires TreeStorable(t) && Picks(t, pick)
  {
    StoredAs(KidsOf(t, d), if d in pick then pick[d] else "", InfoAt(t, d))
  }

  function Store(t: Tree, pick: map<Id, string>): map<Id, MetaBucket>
    requires TreeStorable(t) && Picks(t, pick)
  {
    map d | d in t.kids.Keys + t.info.Keys :: StoredNode(t, pick, d)
  }

  /** A walk over the stored buckets. */
  function StoredWalk(store: map<Id, MetaBucket>, p: Path): Option<Id> {
    if p == [] then Some(ROOT)
    else
      var parent := StoredWalk(store, Front(p));
      if parent.None? || parent.value !in store then None else ReadChild(store[parent.value], Last(p))
  }

  lemma {:induction false} StoredWalkIsLookup(t: Tree, pick: map<Id, string>, p: Path)
    requires TreeStorable(t) && Picks(t, pick) && "" !in p
    ensures StoredWalk(Store(t, pick), p) == Lookup(t, p)
  {
    if p != [] {
      StoredWalkIsLookup(t, pick, Front(p));
      var parent := Lookup(t, Front(p));
      if parent.Some? {
        var d := parent.value;
        StoredAsReads(KidsOf(t, d), if d in pick then pick[d] else "", InfoAt(t, d), Last(p));
      }
    }
  }

  // ------------------------------------------- what building guarantees

  /** Children have names, and identifiers handed out so far. */
  ghost predicate KidsFit(t: Tree) {
    && ROOT <= t.cur <= MAX_ID
    && (forall d | d in t.kids :: t.kids[d] != map[])
    && (forall d, n {:trigger t.kids[d][n]} | d in t.kids && n in t.kids[d] :: n != "" && t.kids[d][n] <= t.cur)
  }

  lemma {:induction false} LookupFits(t: Tree, p: Path)
    requires KidsFit(t)
    ensures Lookup(t, p).Some? ==> Lookup(t, p).value <= t.cur
  {
    if p != [] { LookupFits(t, Front(p)); }
  }

  lemma {:induction false} SetChildFits(t: Tree, parent: Id, base: string, id: Id, isDir: bool)
    requires KidsFit(t) && base != "" && id <= t.cur
    ensures KidsFit(SetChild(t, parent, base, id, isDir)) && SetChild(t, parent, base, id, isDir).cur == t.cur
  {
    SetChildKids(t, parent, base, id, isDir);
    var t' := SetChild(t, parent, base, id, isDir);
    assert base in t'.kids[parent];
  }

  lemma {:induction false} GetOrCreateFits(t: Tree, p: Path)
    requires KidsFit(t) && GetOrCreate(t, p).Some? && "" !in p
    ensures var (t', id) := GetOrCreate(t, p).value; KidsFit(t') && id <= t'.cur && t.cur <= t'.cur
    decreases |p|
  {
    LookupFits(t, p);
    if Lookup(t, p).None? {
      var (t1, id) := NewNode(t, IMPLICIT_DIR, 1).value;
      GetOrCreateFits(t1, Front(p));
      var (t2, parent) := GetOrCreate(t1, Front(p)).value;
      SetChildFits(t2, parent, Last(p), id, true);
    }
  }

  /** Nodes change freely, children do not. */
  lemma {:induction false} SameKidsFit(t: Tree, t': Tree)
    requires KidsFit(t) && t'.kids == t.kids && t.cur <= t'.cur <= MAX_ID
    ensures KidsFit(t')
  {
  }

  lemma {:induction false} EntryNodeFits(t: Tree, e: Entry)
    requires KidsFit(t) && EntryNode(t, e).Some?
    ensures KidsFit(EntryNode(t, e).value.0) && EntryNode(t, e).value.1 <= EntryNode(t, e).value.0.cur
  {
    LookupFits(t, e.PathOf());
    LookupFits(t, e.Target());
    SameKidsFit(t, EntryNode(t, e).value.0);
  }

  lemma {:induction false} AddEntryFits(t: Tree, e: Entry)
    requires KidsFit(t) && AddEntry(t, e).Some?
    ensures KidsFit(AddEntry(t, e).value)
  {
    ComponentsNormal(e.name);
    EntryNodeFits(t, e);
    var (t1, id) := EntryNode(t, e).value;
    GetOrCreateFits(t1, ParentOf(e.PathOf()));
    var (t2, parent) := GetOrCreate(t1, ParentOf(e.PathOf())).value;
    SetChildFits(t2, parent, NameOf(e.PathOf()), id, e.kind.Dir?);
  }

  lemma {:induction false} BuildFits(es: seq<Entry>)
    requires Build(EmptyTree(), es).Some?
    ensures KidsFit(Build(EmptyTree(), es).value)
    decreases |es|
  {
    if es != [] {
      BuildFits(es[..|es| - 1]);
      AddEntryFits(Build(EmptyTree(), es[..|es| - 1]).value, es[|es| - 1]);
    }
  }

  /** For every table, and whichever children are stored inline, walking the database is walking the tree, and
      the node it ends at has its place in the archive stored. */
  lemma {:induction false} DatabaseWalkIsTreeWalk(es: seq<Entry>, t: Tree, pick: map<Id, string>, name: string)
    requires Build(EmptyTree(), es) == Some(t) && Picks(t, pick)
    ensures TreeStorable(t) && StoredWalk(Store(t, pick), Components(name)) == Lookup(t, Components(name))
    ensures forall d | d in t.info :: d in Store(t, pick) && Store(t, pick)[d].info == t.info[d]
  {
    BuildFits(es);
    assert forall d, n | d in t.kids && n in t.kids[d] :: n != "" && t.kids[d][n] <= t.cur;
    ComponentsNormal(name);
    StoredWalkIsLookup(t, pick, Components(name));
  }

  // --------------------------------------------------- extended attributes

  /** One attribute inline, the others in a bucket that takes no empty values and no empty names. */
  datatype XattrBucket = XattrBucket(key: string, value: string, extra: map<string, string>)

  /** Writes attributes with `first` inline; fails when the bucket would take an empty name. */
  function WriteXattrs(m: map<string, string>, first: string): Option<XattrBucket>
    requires first in m
  {
    if "" in m && "" != first && m[""] != "" then None
    else Some(XattrBucket(first, m[first], map k | k in m && k != first && m[k] != "" :: m[k]))
  }

  function ReadXattrs(b: XattrBucket): map<string, string> {
    map[b.key := b.value] + b.extra
  }

  /** What is lost are the empty values outside the inline attribute. */
  lemma {:induction false} XattrsReadBack(m: map<string, string>, first: string)
    requires first in m && WriteXattrs(m, first).Some?
    ensures ReadXattrs(WriteXattrs(m, first).value) == m - (set k | k in m && k != first && m[k] == "")
  {
    var r, kept := ReadXattrs(WriteXattrs(m, first).value), m - (set k | k in m && k != first && m[k] == "");
    assert r.Keys == kept.Keys;
  }

  /** The attributes are written and read back as they were. */
  predicate XattrsKept(m: map<string, string>, first: string)
    requires first in m
  {
    WriteXattrs(m, first).Some? && ReadXattrs(WriteXattrs(m, first).value) == m
  }

  lemma {:induction false} XattrsKeptWith(m: map<string, string>, first: string)
    requires first in m
    ensures XattrsKept(m, first) <==> forall k | k in m && k != first :: k != "" && m[k] != ""
  {
    if WriteXattrs(m, first).Some? {
      var lost := set k | k in m && k != first && m[k] == "";
      XattrsReadBack(m, first);
      if lost == {} {
        assert m - lost == m;
        forall k | k in m && k != first ensures m[k] != "" { assert k !in lost; }
      } else {
        var k :| k in lost;
        assert k in m && k !in m - lost;
      }
    }
  }

  /** Attributes read back as written, whichever is stored inline, exactly when there is only one or none of
      them has an empty name or an empty value. */
  lemma {:induction false} XattrsKeptIffNoneEmpty(m: map<string, string>)
    requires m != map[]
    ensures (forall first | first in m :: XattrsKept(m, first))
      <==> |m| == 1 || forall k | k in m :: k != "" && m[k] != ""
  {
    forall first | first in m
      ensures XattrsKept(m, first) <==> forall k | k in m && k != first :: k != "" && m[k] != ""
    {
      XattrsKeptWith(m, first);
    }
    if |m| == 1 {
      forall first, k | first in m && k in m ensures k == first {
        assert |m.Keys - {first}| == 0;
        assert k !in m.Keys - {first};
      }
    } else if k :| k in m && (k == "" || m[k] == "") {
      assert |m.Keys - {k}| == |m| - 1 > 0;
      var first :| first in m.Keys - {k};
      assert first in m && k != first;
    }
  }

  /** Such attributes: with "b" inline the empty "a" gets lost, and an attribute without a name cannot be
      written. */
  lemma {:induction false} EmptyXattrIsLost()
    ensures var m := map["a" := "", "b" := "x"];
            WriteXattrs(m, "b").Some? && "a" !in ReadXattrs(WriteXattrs(m, "b").value) && !XattrsKept(m, "b")
    ensures WriteXattrs(map["" := "y", "b" := "x"], "b").None?
  {
    var m := map["a" := "", "b" := "x"];
    assert "a" in m && "a" != "b" && "" !in m;
    XattrsReadBack(m, "b");
  }
}
