/**
 A layer as the span manager sees it: the span index, the compressed archive, the archive it
 decompresses to, the span digests, and the foreign functions (digest, inflate) as parameters.
 */
module Layers {
  import opened Base
  import opened SpanIndex

  datatype Layer = Layer(
    z: Zinfo,
    comp: Bytes,
    uncomp: Bytes,
    digests: seq<int>,
    digestOf: Bytes -> int,
    inflate: (Bytes, int, int, nat) -> Option<Bytes>)
  {
    predicate IndexOk() {
      && z.Valid()
      && 0 <= z.MaxSpanID()
      && Monotonic(SpansOf(z, z.MaxSpanID() + 1, |comp|, |uncomp|))
      && EndsWellFormed(SpansOf(z, z.MaxSpanID() + 1, |comp|, |uncomp|), |comp|, |uncomp|)
      && (z.Tar? ==> comp == uncomp && z.size == |uncomp|)
    }

    function Spans(): seq<Span>
      requires IndexOk()
    {
      SpansOf(z, z.MaxSpanID() + 1, |comp|, |uncomp|)
    }

    /** The compressed bytes of spans `i` to `j`. */
    function CompRange(i: nat, j: nat): (r: Bytes)
      requires IndexOk() && i <= j <= z.MaxSpanID()
    {
      CompressedSpanInside(z, |comp|, |uncomp|, i);
      CompressedSpanInside(z, |comp|, |uncomp|, j);
      if Spans()[i].startComp <= Spans()[j].endComp then comp[Spans()[i].startComp..Spans()[j].endComp] else []
    }

    function CompSpan(i: nat): Bytes
      requires IndexOk() && i <= z.MaxSpanID()
    {
      CompRange(i, i)
    }

    function UncompSpan(i: nat): Bytes
      requires IndexOk() && i <= z.MaxSpanID()
    {
      UncompInside(i);
      uncomp[Spans()[i].startUncomp..Spans()[i].endUncomp]
    }

    lemma {:induction false} UncompInside(i: nat)
      requires IndexOk() && i <= z.MaxSpanID()
      ensures 0 <= Spans()[i].startUncomp <= Spans()[i].endUncomp <= |uncomp|
    {
      AcceptedTableTiles(z, |comp|, |uncomp|);
      if 0 < i {
        TilingOrdered(Spans(), |uncomp|, 0, i);
      }
      if i < z.MaxSpanID() {
        TilingOrdered(Spans(), |uncomp|, i, z.MaxSpanID());
      }
    }

    /** Bytes of the right length with the recorded digest are the bytes of the span. */
    ghost predicate DigestsSound()
      requires IndexOk()
    {
      && |digests| == z.MaxSpanID() + 1
      && forall i: nat, b: Bytes {:trigger digestOf(b), CompSpan(i)} ::
           i <= z.MaxSpanID() && |b| == |CompSpan(i)| && digestOf(b) == digests[i] ==> b == CompSpan(i)
    }

    /** Inflating from checkpoint `i` the bytes of spans `i..j` yields any stretch of those spans. */
    ghost predicate InflateSound()
      requires IndexOk()
    {
      forall i: nat, j: nat, off: int, size: int {:trigger inflate(CompRange(i, j), size, off, i)} ::
        && i <= j <= z.MaxSpanID()
        && 0 <= Spans()[i].startUncomp <= off && 0 < size && off + size <= Spans()[j].endUncomp <= |uncomp|
        ==> inflate(CompRange(i, j), size, off, i) == Some(uncomp[off..off + size])
    }

    ghost predicate Sound() {
      && IndexOk()
      && DigestsSound()
      && (z.Gzip? ==> InflateSound())
    }

    /** Extracts `size` bytes at uncompressed offset `off` from a buffer that starts with span `id`. */
    function ExtractDataFromBuffer(buf: Bytes, size: int, off: int, id: nat): Option<Bytes>
      requires z.Valid() && id <= z.MaxSpanID()
    {
      if |buf| == 0 || size < 0 then None
      else if size == 0 then Some([])
      else
        match z
        case Tar(_, _) =>
          var o := off - z.StartUncompressedOffset(id);
          if 0 <= o && o + size <= |buf| then Some(buf[o..o + size]) else None
        case Gzip(_) => inflate(buf, size, off, id)
    }

    /** A stretch of the archive is extracted from the compressed bytes of any run of spans that covers it. */
    lemma {:induction false} ExtractYieldsArchive(i: nat, j: nat, off: int, size: int)
      requires Sound() && i <= j <= z.MaxSpanID()
      requires Spans()[i].startUncomp <= off && 0 < size && off + size <= Spans()[j].endUncomp
      ensures 0 <= off && off + size <= |uncomp|
      ensures ExtractDataFromBuffer(CompRange(i, j), size, off, i) == Some(uncomp[off..off + size])
    {
      UncompInside(i);
      UncompInside(j);
      CompRangeNonEmpty(i, j);
      if z.Tar? {
        var o := off - z.StartUncompressedOffset(i);
        assert Spans()[i].startComp == Spans()[i].startUncomp;
        assert Spans()[j].endComp == Spans()[j].endUncomp;
        SliceOfSlice(comp, Spans()[i].startComp, Spans()[j].endComp, o, o + size);
      } else {
        assert inflate(CompRange(i, j), size, off, i) == Some(uncomp[off..off + size]);
      }
    }

    /** Nothing is extracted from an empty buffer or for a negative size, and no bytes for none. */
    lemma {:induction false} ExtractRefuses(buf: Bytes, size: int, off: int, id: nat)
      requires z.Valid() && id <= z.MaxSpanID()
      ensures buf == [] || size < 0 ==> ExtractDataFromBuffer(buf, size, off, id) == None
      ensures buf != [] && size == 0 ==> ExtractDataFromBuffer(buf, size, off, id) == Some([])
    {
    }

    lemma {:induction false} CompRangeNonEmpty(i: nat, j: nat)
      requires IndexOk() && i <= j <= z.MaxSpanID()
      ensures Spans()[i].startComp < Spans()[j].endComp
      ensures CompRange(i, j) != []
      decreases j - i
    {
      CompressedSpanInside(z, |comp|, |uncomp|, i);
      CompressedSpanInside(z, |comp|, |uncomp|, j);
      if i < j {
        CompRangeNonEmpty(i, j - 1);
      }
    }
  }

  // ------------------------------------------------------- slices of spans

  /** First byte, within span `s`, of a request that starts at `start`. */
  function LoInSpan(s: Span, start: int): int {
    if start > s.startUncomp then start - s.startUncomp else 0
  }

  /** End, within span `s`, of a request that ends at `end`. */
  function HiInSpan(s: Span, end: int): int {
    if end < s.endUncomp then end - s.startUncomp else s.endUncomp - s.startUncomp
  }

  /** The request `[start, end)` lies in the archive and its ends are found in spans `a` and `b`. */
  predicate Located(L: Layer, start: int, end: int, a: int, b: int)
    requires L.IndexOk()
  {
    0 <= start <= end <= |L.uncomp| && Finds(L.Spans(), start, a) && Finds(L.Spans(), end, b)
  }

  /** Where a request between spans `a` and `b` of a tiling cuts span `i`. */
  lemma {:induction false} CutsOfSpan(spans: seq<Span>, size: int, start: int, end: int, a: nat, b: nat, i: nat)
    requires Tiling(spans, size) && start <= end <= size && Finds(spans, start, a) && Finds(spans, end, b)
    requires a <= i <= b
    ensures 0 <= LoInSpan(spans[i], start) <= HiInSpan(spans[i], end) <= spans[i].endUncomp - spans[i].startUncomp
    ensures spans[i].startUncomp + LoInSpan(spans[i], start) == if i == a then start else spans[i].startUncomp
    ensures spans[i].startUncomp + HiInSpan(spans[i], end) == StopInSpan(spans[i], end)
  {
    if i < b { TilingOrdered(spans, size, i, b); }
    if a < i { TilingOrdered(spans, size, a, i); }
  }

  /** Where the part of a request that lies in span `s` stops. */
  function StopInSpan(s: Span, end: int): int {
    if end < s.endUncomp then end else s.endUncomp
  }

  lemma {:induction false} PieceInside(L: Layer, start: int, end: int, a: nat, b: nat, i: nat)
    requires L.IndexOk() && Located(L, start, end, a, b) && a <= i <= b
    ensures 0 <= LoInSpan(L.Spans()[i], start) <= HiInSpan(L.Spans()[i], end) <= |L.UncompSpan(i)|
  {
    assert Tiling(L.Spans(), |L.uncomp|) by { AcceptedTableTiles(L.z, |L.comp|, |L.uncomp|); }
    CutsOfSpan(L.Spans(), |L.uncomp|, start, end, a, b, i);
    L.UncompInside(i);
  }

  function Piece(L: Layer, start: int, end: int, a: nat, b: nat, i: nat): Bytes
    requires L.IndexOk() && Located(L, start, end, a, b) && a <= i <= b
  {
    PieceInside(L, start, end, a, b, i);
    L.UncompSpan(i)[LoInSpan(L.Spans()[i], start)..HiInSpan(L.Spans()[i], end)]
  }

  function Pieces(L: Layer, start: int, end: int, a: nat, b: nat, n: nat): seq<Bytes>
    requires L.IndexOk() && Located(L, start, end, a, b) && a + n <= b + 1
  {
    if n == 0 then [] else Pieces(L, start, end, a, b, n - 1) + [Piece(L, start, end, a, b, a + n - 1)]
  }

  lemma {:induction false} PiecesAt(L: Layer, start: int, end: int, a: nat, b: nat, n: nat, k: nat)
    requires L.IndexOk() && Located(L, start, end, a, b) && k < n && a + n <= b + 1
    ensures |Pieces(L, start, end, a, b, n)| == n
    ensures Pieces(L, start, end, a, b, n)[k] == Piece(L, start, end, a, b, a + k)
  {
    if 1 < n {
      PiecesAt(L, start, end, a, b, n - 1, if k < n - 1 then k else 0);
    }
  }

  lemma {:induction false} PiecesFromEach(L: Layer, start: int, end: int, a: nat, b: nat, got: seq<Bytes>)
    requires L.IndexOk() && Located(L, start, end, a, b) && a <= b && |got| == b - a + 1
    requires forall j :: 0 <= j < |got| ==> got[j] == Piece(L, start, end, a, b, a + j)
    ensures got == Pieces(L, start, end, a, b, b - a + 1)
  {
    var pieces := Pieces(L, start, end, a, b, b - a + 1);
    PiecesAt(L, start, end, a, b, b - a + 1, 0);
    forall j | 0 <= j < |got| ensures got[j] == pieces[j] {
      PiecesAt(L, start, end, a, b, b - a + 1, j);
    }
  }

  lemma {:induction false} LocatedOrdered(L: Layer, start: int, end: int, a: nat, b: nat)
    requires L.IndexOk() && Located(L, start, end, a, b)
    ensures a <= b
  {
    AcceptedTableTiles(L.z, |L.comp|, |L.uncomp|);
    if b < a { TilingOrdered(L.Spans(), |L.uncomp|, b, a); }
  }

  /** Where in the archive the piece of span `i` lies. */
  lemma {:induction false} PieceIsArchiveSlice(L: Layer, start: int, end: int, a: nat, b: nat, i: nat)
    requires L.IndexOk() && Located(L, start, end, a, b) && a <= i <= b
    ensures var from := if i == a then start else L.Spans()[i].startUncomp;
            var stop := StopInSpan(L.Spans()[i], end);
            0 <= from <= stop <= |L.uncomp| && Piece(L, start, end, a, b, i) == L.uncomp[from..stop]
  {
    assert Tiling(L.Spans(), |L.uncomp|) by { AcceptedTableTiles(L.z, |L.comp|, |L.uncomp|); }
    L.UncompInside(i);
    CutIsArchiveSlice(L.Spans(), L.uncomp, start, end, a, b, i);
  }

  lemma {:induction false} CutIsArchiveSlice(spans: seq<Span>, archive: Bytes, start: int, end: int, a: nat, b: nat,
        i: nat)
    requires Tiling(spans, |archive|) && start <= end <= |archive| && Finds(spans, start, a) && Finds(spans, end, b)
    requires a <= i <= b && 0 <= spans[i].startUncomp <= spans[i].endUncomp <= |archive|
    ensures var sp, from := spans[i], if i == a then start else spans[i].startUncomp;
            && 0 <= LoInSpan(sp, start) <= HiInSpan(sp, end) <= sp.endUncomp - sp.startUncomp
            && 0 <= from <= StopInSpan(sp, end) <= |archive|
            && archive[sp.startUncomp..sp.endUncomp][LoInSpan(sp, start)..HiInSpan(sp, end)]
               == archive[from..StopInSpan(sp, end)]
  {
    var sp := spans[i];
    CutsOfSpan(spans, |archive|, start, end, a, b, i);
    SliceOfSlice(archive, sp.startUncomp, sp.endUncomp, LoInSpan(sp, start), HiInSpan(sp, end));
  }

  /** A piece starts where the piece before it stops, and the last piece stops at the end of the request. */
  lemma {:induction false} StopsFollow(spans: seq<Span>, size: int, start: int, end: int, a: nat, b: nat, i: nat)
    requires Tiling(spans, size) && start <= end <= size && Finds(spans, start, a) && Finds(spans, end, b)
    requires a <= i <= b
    ensures a < i ==> StopInSpan(spans[i - 1], end) == spans[i].startUncomp
    ensures i == b ==> StopInSpan(spans[i], end) == end
  {
    if i < b { TilingOrdered(spans, size, i, b); }
  }

  /** Piece `k` is what span `a + k` has of a request that starts in span `a`. */
  predicate CutPiece(spans: seq<Span>, archive: Bytes, start: int, end: int, a: nat, pieces: seq<Bytes>, k: nat) {
    && k < |pieces| && a + k < |spans|
    && var from, stop := if k == 0 then start else spans[a + k].startUncomp, StopInSpan(spans[a + k], end);
       0 <= from <= stop <= |archive| && pieces[k] == archive[from..stop]
  }

  /** The first pieces make up the archive from the start of the request to where the last of them stops. */
  lemma {:induction false} CutPiecesJoin(spans: seq<Span>, archive: Bytes, start: int, end: int, a: nat, b: nat,
        pieces: seq<Bytes>, n: nat)
    requires Tiling(spans, |archive|) && start <= end <= |archive| && Finds(spans, start, a) && Finds(spans, end, b)
    requires 0 < n <= |pieces| && a + n <= b + 1
    requires forall k: nat :: k < n ==> CutPiece(spans, archive, start, end, a, pieces, k)
    ensures 0 <= start <= StopInSpan(spans[a + n - 1], end) <= |archive|
    ensures Flatten(pieces[..n]) == archive[start..StopInSpan(spans[a + n - 1], end)]
  {
    assert CutPiece(spans, archive, start, end, a, pieces, n - 1);
    assert pieces[..n] == pieces[..n - 1] + [pieces[n - 1]];
    FlattenSnoc(pieces[..n - 1], pieces[n - 1]);
    if n == 1 {
      assert pieces[..0] == [];
    } else {
      CutPiecesJoin(spans, archive, start, end, a, b, pieces, n - 1);
      StopsFollow(spans, |archive|, start, end, a, b, a + n - 1);
      SliceJoin(archive, start, spans[a + n - 1].startUncomp, StopInSpan(spans[a + n - 1], end));
    }
  }

  /** The pieces of a located request, in span order, are exactly the requested bytes. */
  lemma {:induction false} PiecesMakeSlice(L: Layer, start: int, end: int, a: nat, b: nat)
    requires L.IndexOk() && Located(L, start, end, a, b)
    ensures a <= b && Flatten(Pieces(L, start, end, a, b, b - a + 1)) == L.uncomp[start..end]
  {
    LocatedOrdered(L, start, end, a, b);
    PiecesAreCut(L, start, end, a, b, Pieces(L, start, end, a, b, b - a + 1));
    AcceptedTableTiles(L.z, |L.comp|, |L.uncomp|);
    CutPiecesMakeSlice(L.Spans(), L.uncomp, start, end, a, b, Pieces(L, start, end, a, b, b - a + 1));
  }

  lemma {:induction false} PiecesAreCut(L: Layer, start: int, end: int, a: nat, b: nat, pieces: seq<Bytes>)
    requires L.IndexOk() && Located(L, start, end, a, b) && a <= b
    requires pieces == Pieces(L, start, end, a, b, b - a + 1)
    ensures |pieces| == b - a + 1
    ensures forall k: nat :: k < |pieces| ==> CutPiece(L.Spans(), L.uncomp, start, end, a, pieces, k)
  {
    PiecesAt(L, start, end, a, b, b - a + 1, 0);
    forall k: nat | k < |pieces| ensures CutPiece(L.Spans(), L.uncomp, start, end, a, pieces, k) {
      PiecesAt(L, start, end, a, b, b - a + 1, k);
      PieceIsCut(L, start, end, a, b, k, pieces);
    }
  }

  lemma {:induction false} PieceIsCut(L: Layer, start: int, end: int, a: nat, b: nat, k: nat, pieces: seq<Bytes>)
    requires L.IndexOk() && Located(L, start, end, a, b) && a + k <= b
    requires k < |pieces| && pieces[k] == Piece(L, start, end, a, b, a + k)
    ensures CutPiece(L.Spans(), L.uncomp, start, end, a, pieces, k)
  {
    PieceIsArchiveSlice(L, start, end, a, b, a + k);
  }

  lemma {:induction false} CutPiecesMakeSlice(spans: seq<Span>, archive: Bytes, start: int, end: int, a: nat, b: nat,
        pieces: seq<Bytes>)
    requires Tiling(spans, |archive|) && start <= end <= |archive| && Finds(spans, start, a) && Finds(spans, end, b)
    requires a <= b && |pieces| == b - a + 1
    requires forall k: nat :: k < |pieces| ==> CutPiece(spans, archive, start, end, a, pieces, k)
    ensures 0 <= start && Flatten(pieces) == archive[start..end]
  {
    CutPiecesJoin(spans, archive, start, end, a, b, pieces, |pieces|);
    StopsFollow(spans, |archive|, start, end, a, b, b);
    assert pieces[..|pieces|] == pieces;
  }

  // ------------------------------------------------------------- locating

  /** The span table has a span for the end of a request: for gzip unless the table starts behind it; for
      tar unless it is the end of an archive that fills its last span. */
  predicate EndFound(L: Layer, end: int)
    requires L.IndexOk()
  {
    match L.z
    case Gzip(list) => list[0].outOff <= end
    case Tar(spanSize, size) => end < size || size % spanSize != 0
  }

  /** The span table has spans for both ends of a request. */
  predicate Locatable(L: Layer, start: int, end: int)
    requires L.IndexOk()
  {
    EndFound(L, end) && (L.z.Gzip? ==> L.z.list[0].outOff <= start)
  }

  /** The span the lookup answers for an offset. */
  function SpanFor(L: Layer, off: nat): nat
    requires L.IndexOk()
  {
    L.z.UncompressedOffsetToSpanID(off)
  }

  /** A request is located exactly when neither of its ends lies in front of a gzip table, and it is no
      tar request that ends at the end of a full last span. */
  lemma {:induction false} RequestLocated(L: Layer, start: int, end: int)
    requires L.IndexOk() && 0 <= start <= end <= |L.uncomp|
    ensures Located(L, start, end, SpanFor(L, start), SpanFor(L, end)) <==> Locatable(L, start, end)
  {
    AcceptedTableTiles(L.z, |L.comp|, |L.uncomp|);
    if L.z.Gzip? {
      GzipLookupFinds(L.z, |L.comp|, |L.uncomp|, start);
      GzipLookupFinds(L.z, |L.comp|, |L.uncomp|, end);
    } else if L.z.size == 0 {
      TarEmptyHasNoSpans(L.z);
    } else {
      TarLookupFinds(L.z, start);
      TarLookupFinds(L.z, end);
    }
  }

  lemma {:induction false} TarEmptyHasNoSpans(z: Zinfo)
    requires z.Tar? && z.Valid() && z.size == 0
    ensures z.MaxSpanID() == -1
  {
    assert 0 / z.spanSize == 0;
  }

  // --------------------------------------- requests in front of the table

  /** Where the bytes begin that a request starting at `start` gets. */
  function ServedFrom(L: Layer, start: int): int
    requires L.IndexOk()
  {
    if L.z.Gzip? && start < L.z.list[0].outOff then L.z.list[0].outOff else start
  }

  /** A request that starts in front of the table is cut as if it started with the table. */
  lemma {:induction false} EarlyRequestIsClipped(L: Layer, start: int, end: int)
    requires L.IndexOk() && 0 <= start <= end <= |L.uncomp| && EndFound(L, end)
    ensures start <= ServedFrom(L, start) <= end && Locatable(L, ServedFrom(L, start), end)
    ensures SpanFor(L, start) == SpanFor(L, ServedFrom(L, start))
    ensures forall i :: 0 <= i < |L.Spans()| ==>
              LoInSpan(L.Spans()[i], start) == LoInSpan(L.Spans()[i], ServedFrom(L, start))
  {
    AcceptedTableTiles(L.z, |L.comp|, |L.uncomp|);
    var from := ServedFrom(L, start);
    if start < from {
      EarlyOffsetInFirstSpan(L.z, |L.comp|, |L.uncomp|, start);
      EarlyOffsetInFirstSpan(L.z, |L.comp|, |L.uncomp|, from);
      forall i | 0 <= i < |L.Spans()| ensures LoInSpan(L.Spans()[i], start) == 0 == LoInSpan(L.Spans()[i], from) {
        if 0 < i { TilingOrdered(L.Spans(), |L.uncomp|, 0, i); }
      }
    }
  }

  /** A request whose end is found is served as the located request from the start of the table on. */
  lemma {:induction false} RequestIsServed(L: Layer, start: int, end: int)
    requires L.IndexOk() && 0 <= start <= end <= |L.uncomp| && EndFound(L, end)
    ensures SpanFor(L, start) <= SpanFor(L, end) <= L.z.MaxSpanID()
    ensures start <= ServedFrom(L, start) <= end
    ensures Located(L, ServedFrom(L, start), end, SpanFor(L, start), SpanFor(L, end))
    ensures forall i :: 0 <= i < |L.Spans()| ==>
              LoInSpan(L.Spans()[i], start) == LoInSpan(L.Spans()[i], ServedFrom(L, start))
  {
    EarlyRequestIsClipped(L, start, end);
    var from := ServedFrom(L, start);
    RequestLocated(L, from, end);
    LocatedOrdered(L, from, end, SpanFor(L, start), SpanFor(L, end));
  }

  /** The bytes of such a request are the requested ones exactly when it is located. */
  lemma {:induction false} ServedRightIffLocatable(L: Layer, start: int, end: int)
    requires L.IndexOk() && 0 <= start <= end <= |L.uncomp| && EndFound(L, end)
    ensures start <= ServedFrom(L, start) <= end
    ensures L.uncomp[ServedFrom(L, start)..end] == L.uncomp[start..end] <==> Locatable(L, start, end)
  {
    EarlyRequestIsClipped(L, start, end);
    assert |L.uncomp[ServedFrom(L, start)..end]| == end - ServedFrom(L, start);
    assert |L.uncomp[start..end]| == end - start;
  }

  /** The slice a request takes of span `i` lies in that span. */
  predicate SliceInside(L: Layer, start: int, end: int, i: nat)
    requires L.IndexOk()
  {
    && i <= L.z.MaxSpanID()
    && 0 <= LoInSpan(L.Spans()[i], start) <= HiInSpan(L.Spans()[i], end) <= |L.UncompSpan(i)|
  }

  /** Every slice of a request lies in a span of the table exactly when the table has a span for its end;
      otherwise the slice of its last span does not exist. */
  lemma {:induction false} SlicesInsideIffEndFound(L: Layer, start: int, end: int)
    requires L.IndexOk() && 0 <= start <= end <= |L.uncomp|
    ensures EndFound(L, end) ==>
              forall i | SpanFor(L, start) <= i <= SpanFor(L, end) :: SliceInside(L, start, end, i)
    ensures !EndFound(L, end) ==>
              SpanFor(L, start) <= SpanFor(L, end) && !SliceInside(L, start, end, SpanFor(L, end))
  {
    AcceptedTableTiles(L.z, |L.comp|, |L.uncomp|);
    if EndFound(L, end) {
      EarlyRequestIsClipped(L, start, end);
      var from := ServedFrom(L, start);
      RequestLocated(L, from, end);
      forall i | SpanFor(L, start) <= i <= SpanFor(L, end) ensures SliceInside(L, start, end, i) {
        PieceInside(L, from, end, SpanFor(L, from), SpanFor(L, end), i);
      }
    } else {
      EndNotFound(L, start, end);
    }
  }

  lemma {:induction false} EndNotFound(L: Layer, start: int, end: int)
    requires L.IndexOk() && 0 <= start <= end <= |L.uncomp| && !EndFound(L, end)
    ensures SpanFor(L, start) <= SpanFor(L, end) && !SliceInside(L, start, end, SpanFor(L, end))
  {
    if L.z.Gzip? {
      AcceptedTableTiles(L.z, |L.comp|, |L.uncomp|);
      EarlyOffsetInFirstSpan(L.z, |L.comp|, |L.uncomp|, start);
      EarlyOffsetInFirstSpan(L.z, |L.comp|, |L.uncomp|, end);
      L.UncompInside(0);
      assert HiInSpan(L.Spans()[0], end) < 0;
    } else {
      TarEndPastTable(L.z, start, end);
    }
  }

  /** A later offset is not looked up in an earlier span. */
  lemma {:induction false} LookupOrdered(L: Layer, start: nat, end: nat)
    requires L.IndexOk() && start <= end <= |L.uncomp|
    ensures SpanFor(L, start) <= SpanFor(L, end)
  {
    if EndFound(L, end) { RequestIsServed(L, start, end); } else { EndNotFound(L, start, end); }
  }

  /** Only the end of a tar is looked up behind the table, and right behind it. */
  lemma {:induction false} EndBehindTable(L: Layer, start: nat, end: nat)
    requires L.IndexOk() && start <= end <= |L.uncomp|
    ensures SpanFor(L, end) <= L.z.MaxSpanID() <==> EndFound(L, end) || L.z.Gzip?
    ensures SpanFor(L, end) <= L.z.MaxSpanID() + 1
  {
    if EndFound(L, end) {
      RequestIsServed(L, start, end);
    } else if L.z.Gzip? {
      AcceptedTableTiles(L.z, |L.comp|, |L.uncomp|);
      EarlyOffsetInFirstSpan(L.z, |L.comp|, |L.uncomp|, end);
    } else {
      TarEndPastTable(L.z, start, end);
    }
  }

  /** The end of a tar that fills its last span is looked up behind the table. */
  lemma {:induction false} TarEndPastTable(z: Zinfo, start: nat, end: nat)
    requires z.Tar? && z.Valid() && start <= end == z.size && z.size % z.spanSize == 0
    ensures z.UncompressedOffsetToSpanID(start) <= z.UncompressedOffsetToSpanID(end) == z.MaxSpanID() + 1
  {
    DivBounds(end, z.spanSize);
    DivLess(start, z.spanSize, end / z.spanSize + 1);
  }

  /** A sound layer whose span table starts at offset 1 of an archive of two bytes. */
  function LateLayer(): Layer {
    var uncomp: Bytes := [7, 8];
    Layer(Gzip([Checkpoint(0, 1, 0)]), [9], uncomp, [1], (b: Bytes) => if b == [9] then 1 else 0,
          (b: Bytes, size: int, off: int, i: nat) =>
            if 0 <= off && 0 < size && off + size <= 2 then Some(uncomp[off..off + size]) else None)
  }

  /** Such layers exist: of the whole archive only the last byte is served. */
  lemma {:induction false} LateLayerIsSound()
    ensures LateLayer().Sound() && EndFound(LateLayer(), 2) && !Locatable(LateLayer(), 0, 2)
    ensures ServedFrom(LateLayer(), 0) == 1
  {
    var L := LateLayer();
    assert L.IndexOk();
    assert L.Spans()[0] == Span(0, 1, 1, 2);
    assert L.CompSpan(0) == [9];
  }
}
