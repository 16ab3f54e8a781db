/**
 The second way to a file's bytes, without the span cache: the table of contents is searched by name,
 links are followed, the compressed bytes of the spans are read, and the file is extracted from them.
 */
module Extraction {
  import opened Base
  import opened Layers
  import opened MetadataTree
  import opened SpanIndex

  // -------------------------------------------------------- entry by name

  /** What a search by name comes to; `Endless` is a search that never returns. */
  datatype Search = Missing | Endless | Found(i: nat)

  /** The first entry with a name. */
  function FindName(toc: seq<Entry>, name: string): (r: Option<nat>)
    ensures r.Some? ==> r.value < |toc| && toc[r.value].name == name
  {
    if toc == [] then None
    else
      var r := FindName(toc[..|toc| - 1], name);
      if r.Some? then r else if toc[|toc| - 1].name == name then Some(|toc| - 1) else None
  }

  lemma {:induction false} FindNameIsFirst(toc: seq<Entry>, name: string, i: nat)
    requires i < |toc| && toc[i].name == name
    ensures FindName(toc, name).Some? && FindName(toc, name).value <= i
  {
    if i < |toc| - 1 {
      FindNameIsFirst(toc[..|toc| - 1], name, i);
    }
  }

  function Names(toc: seq<Entry>): set<string> {
    set e | e in toc :: e.name
  }

  /** Where the first entry with a name links to, if it is a link. */
  function LinkOf(toc: seq<Entry>, name: string): Option<string> {
    var found := FindName(toc, name);
    if found.None? || toc[found.value].linkName == "" then None else Some(toc[found.value].linkName)
  }

  /** Follows links from `name`; the names in `seen` were searched before. */
  function GetMetadataEntry(toc: seq<Entry>, name: string, seen: set<string>): (r: Search)
    ensures r.Found? ==> r.i < |toc|
    decreases Names(toc) - seen
  {
    var found := FindName(toc, name);
    if found.None? then Missing
    else
      var e := toc[found.value];
      if e.linkName == "" then Found(found.value)
      else if name in seen then Endless
      else
        assert name in Names(toc) by { assert e in toc; }
        assert name in Names(toc) - seen && name !in Names(toc) - (seen + {name});
        GetMetadataEntry(toc, e.linkName, seen + {name})
  }

  /** The name after `n` links, as long as there are links. */
  function Chain(toc: seq<Entry>, name: string, n: nat): Option<string>
    decreases n
  {
    if n == 0 then Some(name)
    else if LinkOf(toc, name).None? then None
    else Chain(toc, LinkOf(toc, name).value, n - 1)
  }

  /** Every name of `names` is a link to one of `names`. */
  predicate Closed(toc: seq<Entry>, names: set<string>) {
    forall m | m in names :: LinkOf(toc, m).Some? && LinkOf(toc, m).value in names
  }

  lemma {:induction false} ClosedChainGoesOn(toc: seq<Entry>, names: set<string>, name: string, n: nat)
    requires Closed(toc, names) && name in names
    ensures Chain(toc, name, n).Some?
    decreases n
  {
    if n > 0 {
      ClosedChainGoesOn(toc, names, LinkOf(toc, name).value, n - 1);
    }
  }

  /** A search that comes back to a name has followed a closed set of links. */
  lemma {:induction false} EndlessIsClosed(toc: seq<Entry>, name: string, seen: set<string>)
    returns (names: set<string>)
    requires forall m | m in seen :: LinkOf(toc, m).Some? && LinkOf(toc, m).value in seen + {name}
    requires GetMetadataEntry(toc, name, seen) == Endless
    ensures Closed(toc, names) && name in names
    decreases Names(toc) - seen
  {
    if name in seen {
      names := seen;
    } else {
      var e := toc[FindName(toc, name).value];
      assert name in Names(toc) by { assert e in toc; }
      assert name in Names(toc) - seen && name !in Names(toc) - (seen + {name});
      names := EndlessIsClosed(toc, e.linkName, seen + {name});
      names := names + seen + {name};
    }
  }

  /** A search that ends has followed finitely many links. */
  lemma {:induction false} SearchEnds(toc: seq<Entry>, name: string, seen: set<string>) returns (n: nat)
    requires GetMetadataEntry(toc, name, seen) != Endless
    ensures Chain(toc, name, n).Some? && Chain(toc, name, n + 1).None?
    ensures match GetMetadataEntry(toc, name, seen)
            case Found(i) => FindName(toc, Chain(toc, name, n).value) == Some(i) && toc[i].linkName == ""
            case _ => FindName(toc, Chain(toc, name, n).value).None?
    decreases Names(toc) - seen
  {
    if LinkOf(toc, name).None? {
      n := 0;
      assert Chain(toc, name, 1).None?;
    } else {
      var e := toc[FindName(toc, name).value];
      assert name in Names(toc) by { assert e in toc; }
      assert name in Names(toc) - seen && name !in Names(toc) - (seen + {name});
      var m := SearchEnds(toc, e.linkName, seen + {name});
      n := m + 1;
    }
  }

  /** The search never returns exactly when the links never end; otherwise it gives the entry they end at. */
  lemma {:induction false} SearchFollowsLinks(toc: seq<Entry>, name: string)
    ensures var r := GetMetadataEntry(toc, name, {});
            && (r == Endless <==> forall n: nat :: Chain(toc, name, n).Some?)
            && (r.Found? <==> exists n: nat :: ChainEndsAtFile(toc, name, n))
            && (r.Found? ==> exists n: nat :: ChainEndsAtFile(toc, name, n)
                               && FindName(toc, Chain(toc, name, n).value) == Some(r.i))
  {
    var r := GetMetadataEntry(toc, name, {});
    if r == Endless {
      EndlessSearch(toc, name);
    } else {
      var n := SearchEnds(toc, name, {});
      if r == Missing { MissingSearch(toc, name); } else { assert ChainEndsAtFile(toc, name, n); }
    }
  }

  lemma {:induction false} EndlessSearch(toc: seq<Entry>, name: string)
    requires GetMetadataEntry(toc, name, {}) == Endless
    ensures forall n: nat :: Chain(toc, name, n).Some?
    ensures forall n: nat :: !ChainEndsAtFile(toc, name, n)
  {
    var names := EndlessIsClosed(toc, name, {});
    forall n: nat ensures Chain(toc, name, n).Some? && !ChainEndsAtFile(toc, name, n) {
      ClosedChainIsNotAtFile(toc, names, name, n);
    }
  }

  lemma {:induction false} ClosedChainIsNotAtFile(toc: seq<Entry>, names: set<string>, name: string, n: nat)
    requires Closed(toc, names) && name in names
    ensures Chain(toc, name, n).Some? && !ChainEndsAtFile(toc, name, n)
  {
    ClosedChainGoesOn(toc, names, name, n);
    ClosedChainGoesOn(toc, names, name, n + 1);
    ChainSnoc(toc, name, n);
  }

  lemma {:induction false} MissingSearch(toc: seq<Entry>, name: string)
    requires GetMetadataEntry(toc, name, {}) == Missing
    ensures forall m: nat :: !ChainEndsAtFile(toc, name, m)
  {
    var n := SearchEnds(toc, name, {});
    forall m: nat ensures !ChainEndsAtFile(toc, name, m) {
      if m <= n { ChainGoesOn(toc, name, m, n); } else { ChainStays(toc, name, n + 1, m); }
    }
  }

  /** Such a table: an entry that links to itself. */
  lemma {:induction false} SelfLinkNeverReturns(e: Entry)
    requires e.linkName == e.name != ""
    ensures GetMetadataEntry([e], e.name, {}) == Endless
  {
    FindNameIsFirst([e], e.name, 0);
  }

  predicate ChainEndsAtFile(toc: seq<Entry>, name: string, n: nat) {
    var last := Chain(toc, name, n);
    last.Some? && FindName(toc, last.value).Some? && toc[FindName(toc, last.value).value].linkName == ""
  }

  lemma {:induction false} ChainSnoc(toc: seq<Entry>, name: string, n: nat)
    ensures Chain(toc, name, n).None? ==> Chain(toc, name, n + 1).None?
    ensures Chain(toc, name, n).Some? ==> Chain(toc, name, n + 1) == Chain(toc, Chain(toc, name, n).value, 1)
    decreases n
  {
    if n > 0 && LinkOf(toc, name).Some? {
      ChainSnoc(toc, LinkOf(toc, name).value, n - 1);
    }
  }

  lemma {:induction false} ChainStays(toc: seq<Entry>, name: string, n: nat, m: nat)
    requires n <= m && Chain(toc, name, n).None?
    ensures Chain(toc, name, m).None?
    decreases m - n
  {
    if n < m {
      ChainStays(toc, name, n, m - 1);
      ChainSnoc(toc, name, m - 1);
    }
  }

  /** Before its last link a chain is not at a file. */
  lemma {:induction false} ChainGoesOn(toc: seq<Entry>, name: string, m: nat, n: nat)
    requires m <= n && Chain(toc, name, n).Some? && FindName(toc, Chain(toc, name, n).value).None?
    ensures !ChainEndsAtFile(toc, name, m)
  {
    if m < n && Chain(toc, name, m + 1).None? {
      ChainStays(toc, name, m + 1, n);
    }
    ChainSnoc(toc, name, m);
  }

  // ------------------------------------------------- reading span by span

  /** The ranges read for consecutive spans follow each other without a gap. */
  lemma {:induction false} ReadRangesTouch(L: Layer, a: nat, i: nat)
    requires L.IndexOk() && a <= i <= L.z.MaxSpanID()
    ensures var from := if i == a then L.Spans()[a].startComp else L.Spans()[i - 1].endComp;
            0 <= L.Spans()[a].startComp <= from <= L.Spans()[i].endComp <= |L.comp|
  {
    CompressedSpanInside(L.z, |L.comp|, |L.uncomp|, a);
    CompressedSpanInside(L.z, |L.comp|, |L.uncomp|, i);
    if a < i {
      L.CompRangeNonEmpty(a, i - 1);
    }
  }

  /** A located request ends inside the span its end was found in. */
  lemma {:induction false} EndOfRequestInSpan(L: Layer, offset: nat, size: nat)
    requires L.IndexOk() && offset + size <= |L.uncomp| && Locatable(L, offset, offset + size)
    ensures SpanFor(L, offset + size) < |L.Spans()|
    ensures offset + size <= L.Spans()[SpanFor(L, offset + size)].endUncomp
  {
    RequestLocated(L, offset, offset + size);
    AcceptedTableTiles(L.z, |L.comp|, |L.uncomp|);
  }

  /** The spans a file is looked up in: those of the table, and for a tar the one behind it. */
  predicate InReach(L: Layer, a: nat, b: nat)
    requires L.IndexOk()
  {
    a <= b && a <= L.z.MaxSpanID() && (b <= L.z.MaxSpanID() || (L.z.Tar? && b == L.z.MaxSpanID() + 1))
  }

  /** Where the range read for span `i` ends. */
  function RangeEnd(L: Layer, i: nat): int
    requires L.IndexOk() && (L.z.Gzip? ==> i <= L.z.MaxSpanID())
  {
    L.z.EndCompressedOffset(i, |L.comp|)
  }

  /** Where the first `n` ranges of a run that starts with span `a` end. */
  function RunEnd(L: Layer, a: nat, n: nat): int
    requires L.IndexOk() && a <= L.z.MaxSpanID() && (L.z.Gzip? ==> a + n <= L.z.MaxSpanID() + 1)
  {
    if n == 0 then L.Spans()[a].startComp else RangeEnd(L, a + n - 1)
  }

  /** Behind the table the range ends behind the archive. */
  lemma {:induction false} RangeBehindTable(L: Layer)
    requires L.IndexOk() && L.z.Tar?
    ensures RangeEnd(L, L.z.MaxSpanID() + 1) > |L.comp|
  {
    if L.z.size == 0 { TarEmptyHasNoSpans(L.z); }
    TarMaxSpan(L.z);
    var n := L.z.MaxSpanID() + 1;
    assert L.z.spanSize * (n + 1) == L.z.spanSize * n + L.z.spanSize;
  }

  /** How many bytes the reader could deliver for each range, or an error. */
  type Delivery = nat -> Option<nat>

  /** What a read of a range returns: no more than was asked for and no more than the archive has. */
  function BytesRead(n: nat, from: int, to: int, size: int): int {
    var there := if to < size then to - from else size - from;
    if n < there then n else there
  }

  /** Reads the compressed bytes of spans `a` to `b`, span by span, into one buffer; an error or a short
      read of any span fails the whole. */
  method ReadCompressed(L: Layer, a: nat, b: nat, deliver: Delivery) returns (buf: Option<Bytes>)
    requires L.IndexOk() && InReach(L, a, b)
    ensures buf.Some? <==> AllDelivered(L, a, b, deliver)
    ensures buf.Some? ==> b <= L.z.MaxSpanID() && buf.value == L.CompRange(a, b)
  {
    var checkpoints := CompressedCheckpoints(L, a, b);
    buf := Some([]);
    ReadRangesTouch(L, a, a);
    var i: nat := 0;
    while i < b - a + 1
      invariant i <= b - a + 1 && ReadTo(L, a, i, deliver, buf)
    {
      ReadOneMore(L, a, i, deliver, buf);
      var n, from, to := deliver(a + i), checkpoints[i], checkpoints[i + 1];
      if n.None? || BytesRead(n.value, from, to, |L.comp|) != to - from {
        buf := None;
      } else if buf.Some? {
        buf := Some(buf.value + L.comp[from..to]);
      }
      i := i + 1;
    }
    RunIsRange(L, a, b, deliver, buf);
  }

  /** What was read of the first `n` ranges: all of them, or nothing when one of them did not arrive whole. */
  predicate ReadTo(L: Layer, a: nat, n: nat, deliver: Delivery, buf: Option<Bytes>)
    requires L.IndexOk() && a <= L.z.MaxSpanID() && (L.z.Gzip? ==> a + n <= L.z.MaxSpanID() + 1)
  {
    && (buf.Some? <==> forall k :: a <= k < a + n ==> RangeDelivered(L, a, k, deliver))
    && (buf.Some? ==> 0 <= L.Spans()[a].startComp <= RunEnd(L, a, n) <= |L.comp| && a + n <= L.z.MaxSpanID() + 1)
    && (buf.Some? ==> buf.value == L.comp[L.Spans()[a].startComp..RunEnd(L, a, n)])
  }

  lemma {:induction false} ReadOneMore(L: Layer, a: nat, n: nat, deliver: Delivery, buf: Option<Bytes>)
    requires L.IndexOk() && InReach(L, a, a + n) && ReadTo(L, a, n, deliver, buf)
    ensures RangeDelivered(L, a, a + n, deliver) ==> a + n <= L.z.MaxSpanID()
    ensures a + n <= L.z.MaxSpanID() ==> 0 <= RunEnd(L, a, n) <= RunEnd(L, a, n + 1) <= |L.comp|
    ensures RunEnd(L, a, n + 1) > |L.comp| ==> RunEnd(L, a, n) <= |L.comp|
    ensures var next := if buf.Some? && RangeDelivered(L, a, a + n, deliver)
                        then Some(buf.value + L.comp[RunEnd(L, a, n)..RunEnd(L, a, n + 1)]) else None;
            ReadTo(L, a, n + 1, deliver, next)
  {
    if L.z.Tar? { RangeBehindTable(L); }
    if a + n <= L.z.MaxSpanID() {
      ReadRangesTouch(L, a, a + n);
      if buf.Some? {
        SliceJoin(L.comp, L.Spans()[a].startComp, RunEnd(L, a, n), RunEnd(L, a, n + 1));
      }
    } else if n > 0 {
      ReadRangesTouch(L, a, a + n - 1);
    }
  }

  lemma {:induction false} RunIsRange(L: Layer, a: nat, b: nat, deliver: Delivery, buf: Option<Bytes>)
    requires L.IndexOk() && InReach(L, a, b) && ReadTo(L, a, b - a + 1, deliver, buf)
    ensures buf.Some? <==> AllDelivered(L, a, b, deliver)
    ensures buf.Some? ==> b <= L.z.MaxSpanID() && buf.value == L.CompRange(a, b)
  {
    if b <= L.z.MaxSpanID() { ReadRangesTouch(L, a, b); }
  }

  /** The range read for span `i` of a run that starts with span `a` lies in the archive and arrived whole. */
  predicate RangeDelivered(L: Layer, a: nat, i: nat, deliver: Delivery)
    requires L.IndexOk() && a <= L.z.MaxSpanID() && a <= i && (L.z.Gzip? ==> i <= L.z.MaxSpanID())
  {
    && RangeEnd(L, i) <= |L.comp|
    && deliver(i).Some? && deliver(i).value >= RangeEnd(L, i) - RunEnd(L, a, i - a)
  }

  predicate AllDelivered(L: Layer, a: nat, b: nat, deliver: Delivery)
    requires L.IndexOk() && InReach(L, a, b)
  {
    forall k :: a <= k <= b ==> RangeDelivered(L, a, k, deliver)
  }

  method CompressedCheckpoints(L: Layer, a: nat, b: nat) returns (checkpoints: seq<int>)
    requires L.IndexOk() && InReach(L, a, b)
    ensures |checkpoints| == b - a + 2 && checkpoints[0] == L.Spans()[a].startComp
    ensures forall j :: 1 <= j <= b - a + 1 ==> checkpoints[j] == RangeEnd(L, a + j - 1)
  {
    checkpoints := [L.z.StartCompressedOffset(a)];
    var i := 0;
    while i < b - a + 1
      invariant 0 <= i <= b - a + 1
      invariant |checkpoints| == i + 1 && checkpoints[0] == L.Spans()[a].startComp
      invariant forall j :: 1 <= j <= i ==> checkpoints[j] == RangeEnd(L, a + j - 1)
    {
      checkpoints := checkpoints + [L.z.EndCompressedOffset(a + i, |L.comp|)];
      i := i + 1;
    }
  }

  // ---------------------------------------------------------- extraction

  /** What an extraction comes to; `Undefined` asks inflate to skip a negative distance. */
  datatype Extracted = NoSuchFile | NeverReturns | ReadFailed | Undefined | Data(data: Bytes)

  /** The entry's range lies in the archive. */
  predicate InArchive(L: Layer, e: Entry) {
    0 <= e.uncompressedOffset && 0 <= e.size && e.uncompressedOffset + e.size <= |L.uncomp|
  }

  /** Extracts a file by name: the archive's bytes at the range of the entry its links lead to. A file that
      ends a tar whose last span is full cannot be read, whatever the reader delivers. */
  method ExtractFile(L: Layer, toc: seq<Entry>, name: string, deliver: Delivery) returns (r: Extracted)
    requires L.Sound()
    requires GetMetadataEntry(toc, name, {}).Found? ==> InArchive(L, toc[GetMetadataEntry(toc, name, {}).i])
    ensures r == NoSuchFile <==> GetMetadataEntry(toc, name, {}) == Missing
    ensures r == NeverReturns <==> GetMetadataEntry(toc, name, {}) == Endless
    ensures GetMetadataEntry(toc, name, {}).Found? ==>
              EntryExtracted(L, toc[GetMetadataEntry(toc, name, {}).i], deliver, r)
  {
    var found := GetMetadataEntry(toc, name, {});
    match found {
      case Missing => return NoSuchFile;
      case Endless => return NeverReturns;
      case Found(i) =>
        r := ExtractEntry(L, toc[i], deliver);
    }
  }

  /** What extracting an entry comes to. */
  predicate EntryExtracted(L: Layer, e: Entry, deliver: Delivery, r: Extracted)
    requires L.IndexOk() && InArchive(L, e)
  {
    var start, end := e.uncompressedOffset, e.uncompressedOffset + e.size;
    && (r.Data? <==> e.size == 0 || (Locatable(L, start, end) && Delivered(L, e, deliver)))
    && (r.Data? ==> r.data == L.uncomp[start..end])
    && (r.ReadFailed? <==> e.size > 0 && !Delivered(L, e, deliver))
    && (r.Undefined? <==> e.size > 0 && !Locatable(L, start, end) && Delivered(L, e, deliver))
    && (L.z.Tar? && e.size > 0 && !EndFound(L, end) ==> r.ReadFailed?)
  }

  /** Every range of the entry's spans arrived whole. */
  predicate Delivered(L: Layer, e: Entry, deliver: Delivery)
    requires L.IndexOk() && InArchive(L, e) && 0 < e.size
  {
    EntrySpans(L, e);
    AllDelivered(L, SpanFor(L, e.uncompressedOffset), SpanFor(L, e.uncompressedOffset + e.size), deliver)
  }

  lemma {:induction false} EntrySpans(L: Layer, e: Entry)
    requires L.IndexOk() && InArchive(L, e) && 0 < e.size
    ensures InReach(L, SpanFor(L, e.uncompressedOffset), SpanFor(L, e.uncompressedOffset + e.size))
  {
    var start, end := e.uncompressedOffset, e.uncompressedOffset + e.size;
    LookupOrdered(L, start, end);
    EndBehindTable(L, start, end);
    EndBehindTable(L, start, start);
  }

  /** A file that ends a tar whose last span is full: its last range is behind the archive. */
  lemma {:induction false} TarEndNotDelivered(L: Layer, e: Entry, deliver: Delivery)
    requires L.IndexOk() && InArchive(L, e) && 0 < e.size && L.z.Tar? && !EndFound(L, e.uncompressedOffset + e.size)
    ensures !Delivered(L, e, deliver)
  {
    var a, b := SpanFor(L, e.uncompressedOffset), SpanFor(L, e.uncompressedOffset + e.size);
    EntrySpans(L, e);
    EndBehindTable(L, e.uncompressedOffset, e.uncompressedOffset + e.size);
    RangeBehindTable(L);
    assert !RangeDelivered(L, a, b, deliver);
  }

  method ExtractEntry(L: Layer, e: Entry, deliver: Delivery) returns (r: Extracted)
    requires L.Sound() && InArchive(L, e)
    ensures r != NoSuchFile && r != NeverReturns && EntryExtracted(L, e, deliver, r)
  {
    if e.size == 0 {
      assert L.uncomp[e.uncompressedOffset..e.uncompressedOffset] == [];
      return Data([]);
    }
    EntrySpans(L, e);
    var spanStart, spanEnd := SpanFor(L, e.uncompressedOffset), SpanFor(L, e.uncompressedOffset + e.size);
    if L.z.Tar? && !EndFound(L, e.uncompressedOffset + e.size) { TarEndNotDelivered(L, e, deliver); }
    var buf := ReadCompressed(L, spanStart, spanEnd, deliver);
    if buf.None? {
      return ReadFailed;
    }
    r := ExtractFrom(L, e, buf.value);
  }

  /** Extracts an entry from the compressed bytes of its spans. */
  method ExtractFrom(L: Layer, e: Entry, buf: Bytes) returns (r: Extracted)
    requires L.Sound() && InArchive(L, e) && 0 < e.size
    requires L.z.Tar? ==> EndFound(L, e.uncompressedOffset + e.size)
    requires SpanFor(L, e.uncompressedOffset) <= SpanFor(L, e.uncompressedOffset + e.size) <= L.z.MaxSpanID()
    requires buf == L.CompRange(SpanFor(L, e.uncompressedOffset), SpanFor(L, e.uncompressedOffset + e.size))
    ensures r == if Locatable(L, e.uncompressedOffset, e.uncompressedOffset + e.size)
                 then Data(L.uncomp[e.uncompressedOffset..e.uncompressedOffset + e.size]) else Undefined
  {
    var start, end := e.uncompressedOffset, e.uncompressedOffset + e.size;
    if L.z.Gzip? && start < L.z.list[0].outOff {
      return Undefined;
    }
    RequestLocated(L, start, end);
    EndOfRequestInSpan(L, start, e.size);
    L.ExtractYieldsArchive(SpanFor(L, start), SpanFor(L, end), start, e.size);
    var data := L.ExtractDataFromBuffer(buf, e.size, start, SpanFor(L, start));
    return Data(data.value);
  }

  /** Such a file: the only byte of a tar in spans of one byte. */
  lemma {:induction false} TarEndCannotBeExtracted(L: Layer, e: Entry, deliver: Delivery)
    requires L.z == Tar(1, 1) && L.comp == L.uncomp && |L.uncomp| == 1 && e.uncompressedOffset == 0 && e.size == 1
    ensures L.IndexOk() && InArchive(L, e) && !Delivered(L, e, deliver)
  {
    TarTableTiles(L.z);
    TarEndNotDelivered(L, e, deliver);
  }
}
