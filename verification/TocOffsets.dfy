/**
 Offsets of tar headers in a table of contents: the builder records them while it reads the archive, and
 the loader, whose serialised form does not hold them, computes them again from the other fields.
 */
module TocOffsets {
  const BLOCK := 512

  /** The next multiple of a block. A remainder has the sign of its dividend, so negative offsets stay. */
  function AlignToTarBlock(o: int): int {
    if o >= 0 && o % BLOCK > 0 then o + BLOCK - o % BLOCK else o
  }

  lemma {:induction false} AlignRoundsUp(o: nat)
    ensures AlignToTarBlock(o) % BLOCK == 0 && o <= AlignToTarBlock(o) < o + BLOCK
  {
    var q := o / 512;
    assert o == 512 * q + o % 512;
    if o % 512 > 0 {
      assert AlignToTarBlock(o) == 512 * (q + 1);
    }
  }

  // ------------------------------------------------------------ archives

  /** A member of a tar: the bytes of its header records, the size the tar reader states for it, and the
      bytes it really stores. A type without content stores nothing whatever its size says, a sparse file
      stores less than its size. */
  datatype Member = Member(name: string, headerSize: nat, size: nat, stored: nat)

  predicate Blocked(tar: seq<Member>) {
    forall i :: 0 <= i < |tar| ==> tar[i].headerSize >= BLOCK && tar[i].headerSize % BLOCK == 0
  }

  /** Where the header of member `i` really starts, and behind the last member the end of the archive. */
  function HeaderStart(tar: seq<Member>, i: nat): int
    requires i <= |tar|
    decreases i, 0
  {
    if i == 0 then 0 else AlignToTarBlock(ContentStart(tar, i - 1) + tar[i - 1].stored)
  }

  function ContentStart(tar: seq<Member>, i: nat): int
    requires i < |tar|
    decreases i, 1
  {
    HeaderStart(tar, i) + tar[i].headerSize
  }

  // ---------------------------------------------------------- the builder

  datatype Meta = Meta(name: string, off: int, size: int, headerOff: int)

  /** What the table says of member `i`: the recorded header follows the content the table claims. */
  function Recorded(tar: seq<Member>, i: nat): Meta
    requires i < |tar|
  {
    Meta(tar[i].name, ContentStart(tar, i), tar[i].size,
         if i == 0 then 0 else AlignToTarBlock(ContentStart(tar, i - 1) + tar[i - 1].size))
  }

  function Table(tar: seq<Member>): seq<Meta> {
    seq(|tar|, i requires 0 <= i < |tar| => Recorded(tar, i))
  }

  /** Reads the archive member by member; `pos` is where the tar reader stands after each header. */
  method MetadataFromTar(tar: seq<Member>) returns (md: seq<Meta>)
    ensures md == Table(tar)
  {
    md := [];
    var tarHeaderOffset, start := 0, 0;
    for i := 0 to |tar|
      invariant start == HeaderStart(tar, i)
      invariant md == Table(tar)[..i]
      invariant tarHeaderOffset == if i == 0 then 0 else AlignToTarBlock(ContentStart(tar, i - 1) + tar[i - 1].size)
    {
      var pos := start + tar[i].headerSize;
      md := md + [Meta(tar[i].name, pos, tar[i].size, tarHeaderOffset)];
      tarHeaderOffset := AlignToTarBlock(pos + tar[i].size);
      start := AlignToTarBlock(pos + tar[i].stored);
    }
  }

  lemma {:induction false} StartsAreBlocks(tar: seq<Member>, i: nat)
    requires Blocked(tar) && i <= |tar|
    ensures HeaderStart(tar, i) >= 0 && HeaderStart(tar, i) % BLOCK == 0
  {
    if i > 0 {
      StartsAreBlocks(tar, i - 1);
      AlignRoundsUp(ContentStart(tar, i - 1) + tar[i - 1].stored);
    }
  }

  lemma {:induction false} ContentIsBlock(tar: seq<Member>, i: nat)
    requires Blocked(tar) && i < |tar|
    ensures ContentStart(tar, i) >= BLOCK && ContentStart(tar, i) % BLOCK == 0
  {
    StartsAreBlocks(tar, i);
    var h, n := HeaderStart(tar, i), tar[i].headerSize;
    assert h == 512 * (h / 512) && n == 512 * (n / 512);
    assert (h + n) == 512 * (h / 512 + n / 512);
  }

  /** One byte of an archive: of the header of member `i`, byte `k` of its content, or padding. */
  datatype Slot = Header(i: nat) | Content(i: nat, k: nat) | Padding

  /** The bytes of one member: its header, what it stores, and zeros up to the end of the block. */
  function MemberBytes(i: nat, m: Member): seq<Slot> {
    seq(m.headerSize, _ => Header(i)) + seq(m.stored, k requires 0 <= k => Content(i, k))
    + seq((512 - m.stored % 512) % 512, _ => Padding)
  }

  /** The bytes of the first `n` members, one after another. */
  function Archive(tar: seq<Member>, n: nat): seq<Slot>
    requires n <= |tar|
  {
    if n == 0 then [] else Archive(tar, n - 1) + MemberBytes(n - 1, tar[n - 1])
  }

  lemma {:induction false} PaddedToBlock(n: nat)
    ensures n + (512 - n % 512) % 512 == AlignToTarBlock(n)
  {
  }

  lemma {:induction false} ArchiveLength(tar: seq<Member>, n: nat)
    requires Blocked(tar) && n <= |tar|
    ensures |Archive(tar, n)| == HeaderStart(tar, n)
  {
    if n > 0 {
      ArchiveLength(tar, n - 1);
      ContentIsBlock(tar, n - 1);
      AlignBehindBlock(ContentStart(tar, n - 1), tar[n - 1].stored);
      PaddedToBlock(tar[n - 1].stored);
      assert |MemberBytes(n - 1, tar[n - 1])| == tar[n - 1].headerSize + AlignToTarBlock(tar[n - 1].stored);
    }
  }

  lemma {:induction false} ArchiveGrows(tar: seq<Member>, n: nat, m: nat)
    requires n <= m <= |tar|
    ensures Archive(tar, n) <= Archive(tar, m)
    decreases m
  {
    if n < m { ArchiveGrows(tar, n, m - 1); }
  }

  /** The table names the members in the order of the archive, with the sizes they state, and locates them:
      the recorded offset is where a member's content starts, its header right before. */
  lemma {:induction false} TableLocatesContent(tar: seq<Member>, i: nat, k: nat)
    requires Blocked(tar) && i < |tar| && k < tar[i].headerSize + tar[i].stored
    ensures |Table(tar)| == |tar| && Table(tar)[i].name == tar[i].name && Table(tar)[i].size == tar[i].size
    ensures var at, all := Table(tar)[i].off - tar[i].headerSize + k, Archive(tar, |tar|);
            0 <= at < |all| && all[at] == if k < tar[i].headerSize then Header(i) else Content(i, k - tar[i].headerSize)
  {
    ArchiveLength(tar, i);
    ArchiveGrows(tar, i + 1, |tar|);
    var start, own := HeaderStart(tar, i), MemberBytes(i, tar[i]);
    var upTo, all := Archive(tar, i + 1), Archive(tar, |tar|);
    assert upTo == Archive(tar, i) + own && upTo <= all;
    assert all[start + k] == upTo[start + k] == own[k];
  }

  /** Rounding starts over at every block. */
  lemma {:induction false} AlignBehindBlock(c: nat, n: nat)
    requires c % BLOCK == 0
    ensures AlignToTarBlock(c + n) == c + AlignToTarBlock(n)
  {
    var q := c / 512;
    assert c == 512 * q && (c + n) % 512 == n % 512;
  }

  /** The table claims as many blocks for each member, the last aside, as it stores. */
  predicate BlocksRight(tar: seq<Member>) {
    forall i :: 0 <= i < |tar| - 1 ==> AlignToTarBlock(tar[i].size) == AlignToTarBlock(tar[i].stored)
  }

  /** Where the header behind member `i` is recorded, and where it is. */
  lemma {:induction false} HeaderBehind(tar: seq<Member>, i: nat)
    requires Blocked(tar) && i < |tar| - 1
    ensures Table(tar)[i + 1].headerOff == ContentStart(tar, i) + AlignToTarBlock(tar[i].size)
    ensures HeaderStart(tar, i + 1) == ContentStart(tar, i) + AlignToTarBlock(tar[i].stored)
  {
    ContentIsBlock(tar, i);
    AlignBehindBlock(ContentStart(tar, i), tar[i].size);
    AlignBehindBlock(ContentStart(tar, i), tar[i].stored);
  }

  /** The recorded header offsets are the real ones exactly when every member, the last aside, stores as
      many blocks as its size takes. */
  lemma {:induction false} RecordedHeadersRightIff(tar: seq<Member>)
    requires Blocked(tar)
    ensures (forall i :: 0 <= i < |tar| ==> Table(tar)[i].headerOff == HeaderStart(tar, i)) <==> BlocksRight(tar)
  {
    forall i | 0 <= i < |tar| - 1
      ensures Table(tar)[i + 1].headerOff == HeaderStart(tar, i + 1)
         <==> AlignToTarBlock(tar[i].size) == AlignToTarBlock(tar[i].stored)
    {
      HeaderBehind(tar, i);
    }
    if BlocksRight(tar) {
      forall i | 0 <= i < |tar| ensures Table(tar)[i].headerOff == HeaderStart(tar, i) {
        if i > 0 { assert AlignToTarBlock(tar[i - 1].size) == AlignToTarBlock(tar[i - 1].stored); }
      }
    } else {
      var i :| 0 <= i < |tar| - 1 && AlignToTarBlock(tar[i].size) != AlignToTarBlock(tar[i].stored);
      assert Table(tar)[i + 1].headerOff != HeaderStart(tar, i + 1);
    }
  }

  /** Such archives: a member without content that states one byte, and a file of three blocks that stores
      one. The next header is recorded one block and two blocks too far. */
  lemma {:induction false} UnstoredSizeShiftsHeader()
    ensures var tar := [Member("a", 512, 1, 0), Member("b", 512, 0, 0)];
            Blocked(tar) && HeaderStart(tar, 1) == 512 && Table(tar)[1].headerOff == 1024
    ensures var tar := [Member("a", 512, 1536, 512), Member("b", 512, 0, 0)];
            Blocked(tar) && HeaderStart(tar, 1) == 1024 && Table(tar)[1].headerOff == 2048
  {
    var tar := [Member("a", 512, 1, 0), Member("b", 512, 0, 0)];
    var sparse := [Member("a", 512, 1536, 512), Member("b", 512, 0, 0)];
    assert ContentStart(tar, 0) == 512 && ContentStart(sparse, 0) == 512;
  }

  // ----------------------------------------------------------- the loader

  predicate Sorted(md: seq<Meta>) {
    forall i, j :: 0 <= i < j < |md| ==> md[i].off <= md[j].off
  }

  predicate Increasing(md: seq<Meta>) {
    forall i, j :: 0 <= i < j < |md| ==> md[i].off < md[j].off
  }

  /** Where the loader puts the header of entry `i`. */
  function NextHeader(md: seq<Meta>, i: nat): int
    requires i <= |md|
  {
    if i == 0 then 0 else AlignToTarBlock(md[i - 1].off + md[i - 1].size)
  }

  /** Headers end before their content. */
  predicate Accepted(md: seq<Meta>) {
    forall i {:trigger NextHeader(md, i)} :: 0 <= i < |md| ==> NextHeader(md, i) <= md[i].off
  }

  function Located(md: seq<Meta>): seq<Meta> {
    seq(|md|, i requires 0 <= i < |md| => md[i].(headerOff := NextHeader(md, i)))
  }

  /** The loop over the sorted entries, writing the header offsets in place. */
  method LocateHeaders(a: array<Meta>) returns (ok: bool)
    modifies a
    ensures ok <==> Accepted(old(a[..]))
    ensures ok ==> a[..] == Located(old(a[..]))
  {
    ghost var was := a[..];
    var nextTarHeader := 0;
    for i := 0 to a.Length
      invariant a[i..] == was[i..] && a[..i] == Located(was)[..i]
      invariant nextTarHeader == NextHeader(was, i)
      invariant forall k {:trigger NextHeader(was, k)} :: 0 <= k < i ==> NextHeader(was, k) <= was[k].off
    {
      assert a[i] == was[i];
      if nextTarHeader > a[i].off {
        return false;
      }
      a[i] := a[i].(headerOff := nextTarHeader);
      nextTarHeader := AlignToTarBlock(a[i].off + a[i].size);
    }
    return true;
  }

  /** Serialising drops the header offsets. */
  function Stripped(md: seq<Meta>): seq<Meta> {
    seq(|md|, i requires 0 <= i < |md| => md[i].(headerOff := 0))
  }

  /** Sorting entries that are in order already changes nothing, whatever the algorithm. */
  lemma {:induction false} SortKeepsOrder(md: seq<Meta>, sorted: seq<Meta>)
    requires Increasing(md) && Sorted(sorted) && multiset(sorted) == multiset(md)
    ensures sorted == md
  {
    assert |sorted| == |multiset(sorted)| == |md|;
    if md != [] {
      FirstIsFirst(md, sorted);
      SortedTails(md, sorted);
      SortKeepsOrder(md[1..], sorted[1..]);
      assert md == [md[0]] + md[1..] && sorted == [sorted[0]] + sorted[1..];
    }
  }

  lemma {:induction false} SortedTails(md: seq<Meta>, sorted: seq<Meta>)
    requires Increasing(md) && Sorted(sorted) && multiset(sorted) == multiset(md)
    requires md != [] && sorted != [] && sorted[0] == md[0]
    ensures Increasing(md[1..]) && Sorted(sorted[1..]) && multiset(sorted[1..]) == multiset(md[1..])
  {
    TailMultiset(md);
    TailMultiset(sorted);
  }

  lemma {:induction false} FirstIsFirst(md: seq<Meta>, sorted: seq<Meta>)
    requires Increasing(md) && Sorted(sorted) && multiset(sorted) == multiset(md) && |md| == |sorted| > 0
    ensures sorted[0] == md[0]
  {
    assert md[0] in multiset(sorted) && sorted[0] in multiset(md);
    var k :| 0 <= k < |sorted| && sorted[k] == md[0];
    var j :| 0 <= j < |md| && md[j] == sorted[0];
    assert sorted[0].off <= sorted[k].off;
  }

  lemma {:induction false} TailMultiset(md: seq<Meta>)
    requires md != []
    ensures multiset(md[1..]) == multiset(md) - multiset{md[0]}
  {
    assert md == [md[0]] + md[1..];
  }

  /** A member's content lies behind its own header and before the next one. */
  lemma {:induction false} ContentBeforeNextHeader(tar: seq<Member>, i: nat)
    requires Blocked(tar) && i + 1 < |tar|
    ensures ContentStart(tar, i) + tar[i].stored + BLOCK <= ContentStart(tar, i + 1)
    ensures HeaderStart(tar, i + 1) >= ContentStart(tar, i) + tar[i].stored
  {
    ContentIsBlock(tar, i);
    AlignRoundsUp(ContentStart(tar, i) + tar[i].stored);
  }

  lemma {:induction false} TableIsIncreasing(tar: seq<Member>, i: nat, j: nat)
    requires Blocked(tar) && i < j < |tar|
    ensures ContentStart(tar, i) < ContentStart(tar, j)
    decreases j
  {
    ContentBeforeNextHeader(tar, j - 1);
    if i < j - 1 { TableIsIncreasing(tar, i, j - 1); }
  }

  /** What the loader computes again is what the builder recorded, for every archive. */
  lemma {:induction false} LoaderRecomputesTable(tar: seq<Member>)
    ensures Located(Stripped(Table(tar))) == Table(tar)
  {
    forall i: nat | i < |tar| ensures NextHeader(Stripped(Table(tar)), i) == Table(tar)[i].headerOff {
      if i > 0 { assert Stripped(Table(tar))[i - 1].off == ContentStart(tar, i - 1); }
    }
  }

  /** No member, the last aside, claims blocks beyond the next member's header. */
  predicate ClaimsEndBeforeContent(tar: seq<Member>) {
    forall i :: 0 <= i < |tar| - 1 ==>
      AlignToTarBlock(tar[i].size) <= AlignToTarBlock(tar[i].stored) + tar[i + 1].headerSize
  }

  /** The loader takes what was built exactly when no member claims blocks beyond the next header. */
  lemma {:induction false} BuiltTableAcceptedIff(tar: seq<Member>)
    requires Blocked(tar)
    ensures Accepted(Stripped(Table(tar))) <==> ClaimsEndBeforeContent(tar)
  {
    var md := Stripped(Table(tar));
    forall i | 0 <= i < |tar| - 1
      ensures NextHeader(md, i + 1) <= md[i + 1].off
         <==> AlignToTarBlock(tar[i].size) <= AlignToTarBlock(tar[i].stored) + tar[i + 1].headerSize
    {
      HeaderBehind(tar, i);
      assert md[i].off == ContentStart(tar, i) && md[i].size == tar[i].size;
    }
    if ClaimsEndBeforeContent(tar) {
      forall i | 0 <= i < |md| ensures NextHeader(md, i) <= md[i].off {
        if i == 0 {
          ContentIsBlock(tar, 0);
        } else {
          assert AlignToTarBlock(tar[i - 1].size) <= AlignToTarBlock(tar[i - 1].stored) + tar[i].headerSize;
        }
      }
    } else {
      var i :| 0 <= i < |tar| - 1
        && AlignToTarBlock(tar[i].size) > AlignToTarBlock(tar[i].stored) + tar[i + 1].headerSize;
      assert NextHeader(md, i + 1) > md[i + 1].off;
    }
  }

  /** Such an archive: a member without content that states two blocks. Its table is built and not loaded. */
  lemma {:induction false} BuiltTableRefused()
    ensures var tar := [Member("a", 512, 1024, 0), Member("b", 512, 0, 0)];
            Blocked(tar) && !Accepted(Stripped(Table(tar)))
  {
    var tar := [Member("a", 512, 1024, 0), Member("b", 512, 0, 0)];
    BuiltTableAcceptedIff(tar);
    assert AlignToTarBlock(tar[0].size) == 1024 > AlignToTarBlock(tar[0].stored) + tar[0 + 1].headerSize;
  }

  /** Loading what was built: any sort of the serialised entries keeps their order, and the header offsets
      are the builder's. A table whose header offsets are the real ones is taken; any other exactly when no
      member claims blocks beyond the next header. */
  lemma {:induction false} LoaderAgreesWithBuilder(tar: seq<Member>, sorted: seq<Meta>)
    requires Blocked(tar) && Sorted(sorted) && multiset(sorted) == multiset(Stripped(Table(tar)))
    ensures sorted == Stripped(Table(tar)) && Located(sorted) == Table(tar)
    ensures Accepted(sorted) <==> ClaimsEndBeforeContent(tar)
    ensures BlocksRight(tar) ==> Accepted(sorted)
  {
    TableIncreases(tar);
    SortKeepsOrder(Stripped(Table(tar)), sorted);
    LoaderRecomputesTable(tar);
    BuiltTableAcceptedIff(tar);
  }

  lemma {:induction false} TableIncreases(tar: seq<Member>)
    requires Blocked(tar)
    ensures Increasing(Stripped(Table(tar)))
  {
    forall i, j | 0 <= i < j < |tar| ensures ContentStart(tar, i) < ContentStart(tar, j) {
      TableIsIncreasing(tar, i, j);
    }
  }

  /** In every accepted table with non-negative fields, an entry's header and content end before the
      header of any later entry begins. */
  lemma {:induction false} AcceptedRangesDoNotOverlap(md: seq<Meta>, i: nat, j: nat)
    requires Accepted(md) && i < j < |md| && forall k :: 0 <= k < |md| ==> md[k].off >= 0 && md[k].size >= 0
    ensures Located(md)[i].headerOff <= md[i].off <= md[i].off + md[i].size <= Located(md)[j].headerOff <= md[j].off
    decreases j
  {
    assert NextHeader(md, i) <= md[i].off && NextHeader(md, j) <= md[j].off;
    AlignRoundsUp(md[j - 1].off + md[j - 1].size);
    if i < j - 1 { AcceptedRangesDoNotOverlap(md, i, j - 1); }
  }
}
