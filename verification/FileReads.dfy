/**
 From a path to its bytes: a file is found by walking the tree built from the table of contents, and
 read through the span manager at the place in the archive its node records.
 */
module FileReads {
  import opened Base
  import opened Layers
  import opened LinkCounts
  import opened MetadataReader
  import opened MetadataTree
  import opened Paths
  import opened SpanCell
  import opened SpanManager
  import opened TreeAgreement

  predicate HasBit(mode: int, bit: nat)
    requires bit > 0
  {
    mode / bit % 2 != 0
  }

  /** None of the bits is set that make a node something else than a regular file. */
  predicate IsRegular(mode: int) {
    && !HasBit(mode, 0x8000_0000) && !HasBit(mode, 0x800_0000) && !HasBit(mode, 0x400_0000)
    && !HasBit(mode, 0x200_0000) && !HasBit(mode, 0x100_0000) && !HasBit(mode, 0x20_0000) && !HasBit(mode, 0x8_0000)
  }

  /** Permission, set-user, set-group and sticky bits leave a file regular. */
  lemma {:induction false} PermissionsAreRegular(perm: nat)
    requires perm < 0x8_0000
    ensures IsRegular(perm) && IsRegular(perm + 0x80_0000) && IsRegular(perm + 0x40_0000) && IsRegular(perm + 0x10_0000)
  {
  }

  /** Each of the bits for directories, symbolic links, devices, pipes, sockets, character devices and
      irregular files makes a file something else. */
  lemma {:induction false} TypeBitsAreNot(perm: nat)
    requires perm < 0x8_0000
    ensures !IsRegular(perm + 0x8000_0000) && !IsRegular(perm + 0x800_0000) && !IsRegular(perm + 0x400_0000)
    ensures !IsRegular(perm + 0x200_0000) && !IsRegular(perm + 0x100_0000) && !IsRegular(perm + 0x20_0000)
    ensures !IsRegular(perm + 0x8_0000)
  {
    assert HasBit(perm + 0x8000_0000, 0x8000_0000) && HasBit(perm + 0x800_0000, 0x800_0000);
    assert HasBit(perm + 0x400_0000, 0x400_0000) && HasBit(perm + 0x200_0000, 0x200_0000);
    assert HasBit(perm + 0x100_0000, 0x100_0000) && HasBit(perm + 0x20_0000, 0x20_0000);
  }

  /** What opening a node of the tree gives to reads: where its content starts, and its size. */
  function OpenFile(t: Tree, id: Id): Option<(int, int)> {
    if id !in t.nodes || !IsRegular(t.nodes[id].attr.mode) then None
    else Some((if id in t.info then t.info[id].uncompressedOffset else 0, t.nodes[id].attr.size))
  }

  /** Opening a path leads to the range of an entry, or is refused because the entry is no regular file. */
  predicate OpensAt(t: Tree, q: Path, e: Entry) {
    && Lookup(t, q).Some?
    && OpenFile(t, Lookup(t, q).value) ==
         if IsRegular(e.ModeOf()) then Some((e.uncompressedOffset, e.size)) else None
  }

  lemma {:induction false} OpensIfSeen(t: Tree, q: Path, e: Entry)
    requires EntrySeen(t, e) && !e.kind.Hardlink? && Lookup(t, q) == Lookup(t, e.PathOf())
    ensures OpensAt(t, q, e)
  {
    assert e.ModeOf() == e.perm + TypeBits(e.kind);
  }

  /** Every path of a file, its own or a hardlink's, opens the range its table entry records. */
  lemma {:induction false} PathOpensOriginal(es: seq<Entry>, t: Tree, q: Path, i: nat)
    requires WellFormed(es) && Build(EmptyTree(), es) == Some(t) && q in FilePaths(es)
    requires i < |es| && es[i].kind.Other? && Original(es, q) == es[i].PathOf()
    ensures OpensAt(t, q, es[i])
  {
    OtherIsNoLink(es, i);
    OriginalOfNew(es, es[i].PathOf());
    WalkReachesOriginal(es, t, q, es[i].PathOf());
    WalkShowsEntry(es, t, i);
    OpensIfSeen(t, q, es[i]);
  }

  /** Finds a file by name and opens it. */
  method OpenByName(t: Tree, name: string, ghost es: seq<Entry>, ghost i: nat) returns (r: Option<(int, int)>)
    requires WellFormed(es) && Build(EmptyTree(), es) == Some(t)
    requires Components(name) in FilePaths(es) && i < |es| && es[i].kind.Other?
    requires Original(es, Components(name)) == es[i].PathOf()
    ensures r == if IsRegular(es[i].ModeOf()) then Some((es[i].uncompressedOffset, es[i].size)) else None
  {
    PathOpensOriginal(es, t, Components(name), i);
    CleanNameWalks(t, name);
    var id := GetIDByName(t, CleanEntryPath(name));
    r := OpenFile(t, id.value);
  }

  /** The entry's range lies in the archive. */
  predicate Readable(L: Layer, e: Entry) {
    0 <= e.uncompressedOffset && 0 <= e.size && e.uncompressedOffset + e.size <= |L.uncomp|
  }

  /** What reading an entry at `offset` comes to, with `p` in the buffer afterwards. */
  ghost predicate ReadOk(L: Layer, e: Entry, offset: nat, io: nat -> SpanIO, tries: nat, delivered: nat, p: Bytes,
                         r: ReadResult)
    requires L.IndexOk() && Readable(L, e)
  {
    var start, n := e.uncompressedOffset + offset, ReadSize(|p|, offset, e.size);
    && (!IsRegular(e.ModeOf()) ==> r == Failed)
    && (IsRegular(e.ModeOf()) && |p| > 0 ==> (r == EOF <==> e.size <= offset))
    && (r.Served? ==> r.n == n && (n > 0 ==> p[..n] == L.uncomp[start..start + n]))
    && (r == Crashed ==> ReadEndMissing(L, e.uncompressedOffset, e.size, |p|, offset))
    && (IsRegular(e.ModeOf()) && AllGood(L, io, tries) && n <= delivered ==>
          (r.EOF? || r.Served? <==> ReadLocatable(L, e.uncompressedOffset, e.size, |p|, offset)))
  }

  /** Reads a file by name: the bytes served are those of the archive at the recorded place. */
  method ReadByName(m: SpanManager, t: Tree, name: string, p: array<byte>, offset: nat, io: nat -> SpanIO,
                    delivered: nat, ghost es: seq<Entry>, ghost i: nat)
    returns (r: ReadResult)
    requires m.Valid() && WellFormed(es) && Build(EmptyTree(), es) == Some(t)
    requires Components(name) in FilePaths(es) && i < |es| && es[i].kind.Other?
    requires Original(es, Components(name)) == es[i].PathOf()
    requires Readable(m.L, es[i])
    requires forall k :: m.retries < |io(k).answers|
    modifies m, p
    ensures m.Valid() && ReadOk(m.L, es[i], offset, io, m.retries + 1, delivered, p[..], r)
  {
    var file := OpenByName(t, name, es, i);
    r := ReadOpened(m, file, p, offset, io, delivered, es[i]);
  }

  /** Reads from what opening gave for an entry. */
  method ReadOpened(m: SpanManager, file: Option<(int, int)>, p: array<byte>, offset: nat, io: nat -> SpanIO,
                    delivered: nat, ghost e: Entry)
    returns (r: ReadResult)
    requires m.Valid() && Readable(m.L, e)
    requires file == if IsRegular(e.ModeOf()) then Some((e.uncompressedOffset, e.size)) else None
    requires forall k :: m.retries < |io(k).answers|
    modifies m, p
    ensures m.Valid() && ReadOk(m.L, e, offset, io, m.retries + 1, delivered, p[..], r)
  {
    if file.None? {
      return Failed;
    }
    r := m.ReadAt(p, offset, file.value.0, file.value.1, true, io, delivered);
    assert r.Served? ==> p[..][..r.n] == p[..r.n];
  }
}
