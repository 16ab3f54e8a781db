/**
 The span index of a layer: where each span starts and ends in the compressed and in the
 uncompressed stream, and which span an uncompressed offset belongs to.
 */
module SpanIndex {
  import opened Base

  /** `bits` is the number of bits of byte `inOff - 1` that belong to this checkpoint. */
  datatype Checkpoint = Checkpoint(inOff: int, outOff: int, bits: nat)

  datatype Zinfo =
    | Gzip(list: seq<Checkpoint>)
    | Tar(spanSize: int, size: int)
  {
    /** An index with a span size to divide by. */
    predicate Sized() {
      Tar? ==> 0 < spanSize && 0 <= size
    }

    /** An index with a span size to divide by and a checkpoint to start from. Loading checks neither. */
    predicate Valid() {
      Sized() && (Gzip? ==> list != [])
    }

    function MaxSpanID(): int
      requires Sized()
    {
      match this
      case Gzip(list) => |list| - 1
      case Tar(spanSize, size) => if size % spanSize == 0 then size / spanSize - 1 else size / spanSize
    }

    predicate HasBits(id: nat)
      requires Gzip?
    {
      id < |list| && list[id].bits != 0
    }

    function StartCompressedOffset(id: nat): int
      requires Sized() && id <= MaxSpanID()
    {
      match this
      case Gzip(list) => if HasBits(id) then list[id].inOff - 1 else list[id].inOff
      case Tar(spanSize, _) => spanSize * id
    }

    function EndCompressedOffset(id: nat, fileSize: int): int
      requires Sized() && (Gzip? ==> id <= MaxSpanID())
    {
      if id == MaxSpanID() then fileSize
      else
        match this
        case Gzip(list) => list[id + 1].inOff
        case Tar(spanSize, _) => spanSize * (id + 1)
    }

    function StartUncompressedOffset(id: nat): int
      requires Sized() && id <= MaxSpanID()
    {
      match this
      case Gzip(list) => list[id].outOff
      case Tar(spanSize, _) => spanSize * id
    }

    function EndUncompressedOffset(id: nat, fileSize: int): int
      requires Sized() && id <= MaxSpanID()
    {
      if id == MaxSpanID() then fileSize
      else
        match this
        case Gzip(list) => list[id + 1].outOff
        case Tar(spanSize, _) => spanSize * (id + 1)
    }

    function UncompressedOffsetToSpanID(off: nat): nat
      requires Valid()
    {
      match this
      case Gzip(list) => PtIndexFrom(list, off, 0)
      case Tar(spanSize, _) => TarSpanOf(off, spanSize)
    }
  }

  function TarSpanOf(off: nat, spanSize: int): nat
    requires 0 < spanSize
  {
    off / spanSize
  }

  /** The checkpoint the lookup loop stops at when it stands at checkpoint `i`. */
  function PtIndexFrom(list: seq<Checkpoint>, off: int, i: nat): nat
    requires i < |list|
    decreases |list| - i
  {
    if i + 1 < |list| && list[i + 1].outOff <= off then PtIndexFrom(list, off, i + 1) else i
  }

  /** The lookup loop: step right while the next checkpoint is not past the offset. In a list without
      checkpoints it looks outside the list. */
  method PtIndexFromUcmpOffset(list: seq<Checkpoint>, off: int) returns (r: Option<nat>)
    ensures r.None? <==> list == []
    ensures r.Some? ==> r.value < |list| && r.value == PtIndexFrom(list, off, 0)
    ensures r.Some? ==> forall j :: 1 <= j <= r.value ==> list[j].outOff <= off
    ensures r.Some? && r.value + 1 < |list| ==> off < list[r.value + 1].outOff
  {
    var res: nat := 0;
    var ret := |list| - 1;
    while ret != 0
      invariant res + ret + 1 == |list| && -1 <= ret && (ret == -1 ==> list == [])
      invariant list != [] ==> PtIndexFrom(list, off, res) == PtIndexFrom(list, off, 0)
      invariant list != [] ==> forall j :: 1 <= j <= res ==> list[j].outOff <= off
      decreases ret
    {
      if res + 1 >= |list| {
        return None;
      }
      if list[res + 1].outOff > off {
        return Some(res);
      }
      ret := ret - 1;
      res := res + 1;
    }
    return Some(res);
  }

  // ---------------------------------------------------------------- spans

  datatype Span = Span(startComp: int, endComp: int, startUncomp: int, endUncomp: int)

  function SpanOf(z: Zinfo, id: nat, compSize: int, uncompSize: int): Span
    requires z.Sized() && id <= z.MaxSpanID()
  {
    Span(z.StartCompressedOffset(id), z.EndCompressedOffset(id, compSize),
         z.StartUncompressedOffset(id), z.EndUncompressedOffset(id, uncompSize))
  }

  function SpansOf(z: Zinfo, n: nat, compSize: int, uncompSize: int): seq<Span>
    requires z.Sized() && n <= z.MaxSpanID() + 1
  {
    seq(n, i requires 0 <= i < n => SpanOf(z, i, compSize, uncompSize))
  }

  /** Every span but the last is non-empty on both sides. */
  predicate Monotonic(spans: seq<Span>) {
    forall i {:trigger spans[i]} :: 0 <= i < |spans| - 1 ==>
      spans[i].startComp < spans[i].endComp && spans[i].startUncomp < spans[i].endUncomp
  }

  /** Builds all spans and rejects tables whose offsets do not grow. */
  method BuildAllSpans(z: Zinfo, compSize: int, uncompSize: int) returns (ok: bool, spans: seq<Span>)
    requires z.Sized()
    ensures ok <==> Monotonic(SpansOf(z, z.MaxSpanID() + 1, compSize, uncompSize))
    ensures ok ==> spans == SpansOf(z, z.MaxSpanID() + 1, compSize, uncompSize)
  {
    spans := [];
    var i: nat := 0;
    ghost var all := SpansOf(z, z.MaxSpanID() + 1, compSize, uncompSize);
    while i <= z.MaxSpanID()
      invariant i <= z.MaxSpanID() + 1
      invariant spans == SpansOf(z, i, compSize, uncompSize)
      invariant forall j {:trigger all[j]} :: 0 <= j < i && j < z.MaxSpanID() ==>
        all[j].startComp < all[j].endComp && all[j].startUncomp < all[j].endUncomp
    {
      var s := SpanOf(z, i, compSize, uncompSize);
      spans := spans + [s];
      if i < z.MaxSpanID() {
        if s.startComp >= s.endComp || s.startUncomp >= s.endUncomp {
          assert all[i] == s;
          return false, spans;
        }
      }
      i := i + 1;
    }
    ok := true;
  }

  /** The spans cut the uncompressed stream, from the first start to `size`, into consecutive pieces. */
  predicate Tiling(spans: seq<Span>, size: int) {
    && spans != []
    && 0 <= spans[0].startUncomp
    && spans[|spans| - 1].endUncomp == size
    && spans[|spans| - 1].startUncomp <= size
    && (forall i :: 0 <= i < |spans| - 1 ==> spans[i].startUncomp < spans[i].endUncomp)
    && (forall i :: 0 <= i < |spans| - 1 ==> spans[i].endUncomp == spans[i + 1].startUncomp)
  }

  /** What the source leaves unchecked about the last and the first span of a table. */
  predicate EndsWellFormed(spans: seq<Span>, compSize: int, uncompSize: int) {
    && spans != []
    && spans[|spans| - 1].startComp < compSize
    && spans[|spans| - 1].startUncomp <= uncompSize
    && 0 <= spans[0].startComp
    && 0 <= spans[0].startUncomp
  }

  /** Offsets of later spans are larger. */
  lemma {:induction false} TilingOrdered(spans: seq<Span>, size: int, i: nat, j: nat)
    requires Tiling(spans, size) && i < j < |spans|
    ensures spans[i].endUncomp <= spans[j].startUncomp
    decreases j - i
  {
    if i + 1 < j {
      TilingOrdered(spans, size, i, j - 1);
      assert spans[j - 1].endUncomp == spans[j].startUncomp;
    }
  }

  lemma {:induction false} AcceptedTableTiles(z: Zinfo, compSize: int, uncompSize: int)
    requires z.Valid() && 0 <= z.MaxSpanID()
    requires var spans := SpansOf(z, z.MaxSpanID() + 1, compSize, uncompSize);
             Monotonic(spans) && EndsWellFormed(spans, compSize, uncompSize)
    ensures Tiling(SpansOf(z, z.MaxSpanID() + 1, compSize, uncompSize), uncompSize)
  {
    var spans := SpansOf(z, z.MaxSpanID() + 1, compSize, uncompSize);
    forall i | 0 <= i < |spans| - 1
      ensures spans[i].startUncomp < spans[i].endUncomp && spans[i].endUncomp == spans[i + 1].startUncomp
    {
      assert spans[i].startUncomp < spans[i].endUncomp;
    }
  }

  // -------------------------------------------------------------- lookup

  predicate Contains(s: Span, off: int) {
    s.startUncomp <= off < s.endUncomp
  }

  /** The lookup answers `id`: the span starts at or before the offset, and holds it unless it is the last. */
  predicate Finds(spans: seq<Span>, off: int, id: int) {
    && 0 <= id < |spans|
    && spans[id].startUncomp <= off
    && (id < |spans| - 1 ==> off < spans[id].endUncomp)
  }

  /** At most one span holds an offset. */
  lemma {:induction false} ContainingSpanUnique(spans: seq<Span>, size: int, off: int, i: nat, j: nat)
    requires Tiling(spans, size) && i < |spans| && j < |spans|
    requires Contains(spans[i], off) && Contains(spans[j], off)
    ensures i == j
  {
    if i < j {
      TilingOrdered(spans, size, i, j);
    } else if j < i {
      TilingOrdered(spans, size, j, i);
    }
  }

  lemma {:induction false} PtIndexStops(list: seq<Checkpoint>, off: int, i: nat)
    requires i < |list|
    ensures var r := PtIndexFrom(list, off, i);
            && i <= r < |list|
            && (r > i ==> list[r].outOff <= off)
            && (r + 1 < |list| ==> off < list[r + 1].outOff)
    decreases |list| - i
  {
    if i + 1 < |list| && list[i + 1].outOff <= off {
      PtIndexStops(list, off, i + 1);
    }
  }

  /** For a gzip table the lookup finds an offset exactly when the table does not start behind it. */
  lemma {:induction false} GzipLookupFinds(z: Zinfo, compSize: int, uncompSize: int, off: nat)
    requires z.Gzip? && z.Valid()
    requires Tiling(SpansOf(z, z.MaxSpanID() + 1, compSize, uncompSize), uncompSize)
    ensures Finds(SpansOf(z, z.MaxSpanID() + 1, compSize, uncompSize), off, z.UncompressedOffsetToSpanID(off))
       <==> z.list[0].outOff <= off
  {
    PtIndexStops(z.list, off, 0);
    var spans := SpansOf(z, z.MaxSpanID() + 1, compSize, uncompSize);
    var r := z.UncompressedOffsetToSpanID(off);
    assert spans[0].startUncomp == z.list[0].outOff;
    assert spans[r].startUncomp == z.list[r].outOff;
    if 0 < r {
      TilingOrdered(spans, uncompSize, 0, r);
    }
  }

  /** The lookup answers span 0 for every offset in front of the table. */
  lemma {:induction false} EarlyOffsetInFirstSpan(z: Zinfo, compSize: int, uncompSize: int, off: nat)
    requires z.Gzip? && z.Valid() && off <= z.list[0].outOff
    requires Tiling(SpansOf(z, z.MaxSpanID() + 1, compSize, uncompSize), uncompSize)
    ensures z.UncompressedOffsetToSpanID(off) == 0
  {
    var spans := SpansOf(z, z.MaxSpanID() + 1, compSize, uncompSize);
    assert spans[0].startUncomp == z.list[0].outOff;
    if 1 < |z.list| {
      assert spans[0].startUncomp < spans[0].endUncomp;
      assert spans[0].endUncomp == z.list[1].outOff;
    }
  }

  lemma {:induction false} DivBounds(off: nat, d: int)
    requires 0 < d
    ensures d * (off / d) <= off < d * (off / d) + d
  {
  }

  lemma {:induction false} DivLess(a: nat, d: int, q: nat)
    requires 0 < d
    ensures a / d < q <==> a < d * q
  {
    DivBounds(a, d);
    if a / d < q {
      assert d * (a / d + 1) <= d * q;
    } else {
      assert d * q <= d * (a / d);
    }
  }

  /** A tar of positive size has `size` strictly after the start of its last span and at most at its end. */
  lemma {:induction false} TarMaxSpan(z: Zinfo)
    requires z.Tar? && z.Valid() && 0 < z.size
    ensures 0 <= z.MaxSpanID()
    ensures z.spanSize * z.MaxSpanID() < z.size <= z.spanSize * (z.MaxSpanID() + 1)
    ensures z.size == z.spanSize * (z.MaxSpanID() + 1) <==> z.size % z.spanSize == 0
  {
    DivBounds(z.size, z.spanSize);
    var q := z.size / z.spanSize;
    assert z.size == z.spanSize * q + z.size % z.spanSize;
    assert z.spanSize * (q - 1) == z.spanSize * q - z.spanSize;
    assert q == 0 ==> z.spanSize * q == 0;
  }

  /** For a tar table the lookup stays in the table exactly when the offset is inside the archive,
      or at its end and the last span is not full. */
  lemma {:induction false} TarLookupFinds(z: Zinfo, off: nat)
    requires z.Tar? && z.Valid() && 0 < z.size && off <= z.size
    ensures 0 <= z.MaxSpanID()
    ensures Finds(SpansOf(z, z.MaxSpanID() + 1, z.size, z.size), off, z.UncompressedOffsetToSpanID(off))
       <==> off < z.size || z.size % z.spanSize != 0
  {
    TarMaxSpan(z);
    var n := z.MaxSpanID() + 1;
    var spans := SpansOf(z, n, z.size, z.size);
    var r := z.UncompressedOffsetToSpanID(off);
    DivBounds(off, z.spanSize);
    DivLess(off, z.spanSize, n);
    if r < n {
      assert spans[r].startUncomp == z.spanSize * r;
      if r < n - 1 { assert spans[r].endUncomp == z.spanSize * (r + 1); }
    }
  }

  /** Such an archive: the end of a tar of one byte in spans of one byte is looked up in span 1, and span 0 is
      the last. */
  lemma {:induction false} TarEndLeavesTable()
    ensures Tar(1, 1).Valid() && Tar(1, 1).UncompressedOffsetToSpanID(1) == 1 && Tar(1, 1).MaxSpanID() == 0
    ensures !Finds(SpansOf(Tar(1, 1), 1, 1, 1), 1, Tar(1, 1).UncompressedOffsetToSpanID(1))
  {
    TarLookupFinds(Tar(1, 1), 1);
  }

  lemma {:induction false} TarTableTiles(z: Zinfo)
    requires z.Tar? && z.Valid() && 0 < z.size
    ensures 0 <= z.MaxSpanID()
    ensures var spans := SpansOf(z, z.MaxSpanID() + 1, z.size, z.size);
            Monotonic(spans) && EndsWellFormed(spans, z.size, z.size) && Tiling(spans, z.size)
  {
    TarMaxSpan(z);
    var spans := SpansOf(z, z.MaxSpanID() + 1, z.size, z.size);
    forall i | 0 <= i < |spans| - 1
      ensures spans[i].startComp < spans[i].endComp && spans[i].startUncomp < spans[i].endUncomp
    {
      assert z.spanSize * (i + 1) == z.spanSize * i + z.spanSize;
    }
    assert Monotonic(spans);
    assert spans[0].startUncomp == z.spanSize * 0;
    AcceptedTableTiles(z, z.size, z.size);
  }

  // ------------------------------------------------- compressed coverage

  predicate InComp(s: Span, k: int) {
    s.startComp <= k < s.endComp
  }

  /** Whether span `id` starts in the middle of a byte that its predecessor ends with. */
  predicate StartsMidByte(z: Zinfo, id: nat) {
    z.Gzip? && z.HasBits(id)
  }

  /** The bit of the compressed stream at which a checkpoint stands. */
  function BitOf(c: Checkpoint): int {
    8 * c.inOff - c.bits
  }

  /** A gzip span holds exactly the bytes with a bit between its checkpoint and the next, or the end. */
  lemma {:induction false} GzipSpanHoldsItsBits(z: Zinfo, compSize: int, uncompSize: int, id: nat, k: int)
    requires z.Gzip? && id < |z.list| && z.list[id].bits < 8 && (id + 1 < |z.list| ==> z.list[id + 1].bits < 8)
    ensures var end := if id + 1 < |z.list| then BitOf(z.list[id + 1]) else 8 * compSize;
            InComp(SpanOf(z, id, compSize, uncompSize), k) <==> 8 * k < end && BitOf(z.list[id]) < 8 * (k + 1)
  {
  }

  /** Byte `k` of a plain tar lies in span `k / spanSize`, on both sides. */
  lemma {:induction false} TarSpanHoldsItsBytes(z: Zinfo, id: nat, k: nat)
    requires z.Tar? && z.Sized() && id <= z.MaxSpanID() && k < z.size
    ensures var s := SpanOf(z, id, z.size, z.size);
            && (InComp(s, k) <==> k / z.spanSize == id)
            && s.startUncomp == s.startComp && s.endUncomp == s.endComp
  {
    DivLess(k, z.spanSize, id);
    DivLess(k, z.spanSize, id + 1);
    TarMaxSpan(z);
  }

  /** Every byte before the start of span `j` and after the header lies in one of the spans before `j`. */
  lemma {:induction false} BytesBeforeSpanCovered(z: Zinfo, compSize: int, uncompSize: int, j: nat, k: int)
    returns (i: nat)
    requires z.Valid() && j <= z.MaxSpanID()
    requires var s := SpansOf(z, z.MaxSpanID() + 1, compSize, uncompSize); s[0].startComp <= k < s[j].startComp
    ensures i < j && InComp(SpansOf(z, z.MaxSpanID() + 1, compSize, uncompSize)[i], k)
    decreases j
  {
    var s := SpansOf(z, z.MaxSpanID() + 1, compSize, uncompSize);
    if s[j - 1].startComp <= k {
      i := j - 1;
    } else {
      i := BytesBeforeSpanCovered(z, compSize, uncompSize, j - 1, k);
    }
  }

  /** The compressed bytes of every span of an accepted table are non-empty and inside the archive. */
  lemma {:induction false} CompressedSpanInside(z: Zinfo, compSize: int, uncompSize: int, i: nat)
    requires z.Valid() && i <= z.MaxSpanID()
    requires var s := SpansOf(z, z.MaxSpanID() + 1, compSize, uncompSize);
             Monotonic(s) && EndsWellFormed(s, compSize, uncompSize)
    ensures var s := SpansOf(z, z.MaxSpanID() + 1, compSize, uncompSize);
            0 <= s[i].startComp < s[i].endComp <= compSize
  {
    CompressedStartsNonNegative(z, compSize, uncompSize, i);
    CompressedEndsInside(z, compSize, uncompSize, i);
    var s := SpansOf(z, z.MaxSpanID() + 1, compSize, uncompSize);
    if i < z.MaxSpanID() { assert s[i].startComp < s[i].endComp; }
  }

  lemma {:induction false} CompressedStartsNonNegative(z: Zinfo, compSize: int, uncompSize: int, i: nat)
    requires z.Valid() && i <= z.MaxSpanID()
    requires var s := SpansOf(z, z.MaxSpanID() + 1, compSize, uncompSize);
             Monotonic(s) && EndsWellFormed(s, compSize, uncompSize)
    ensures 0 <= SpansOf(z, z.MaxSpanID() + 1, compSize, uncompSize)[i].startComp
  {
    if 0 < i {
      CompressedStartsNonNegative(z, compSize, uncompSize, i - 1);
      var s := SpansOf(z, z.MaxSpanID() + 1, compSize, uncompSize);
      assert s[i - 1].startComp < s[i - 1].endComp;
    }
  }

  lemma {:induction false} CompressedEndsInside(z: Zinfo, compSize: int, uncompSize: int, i: nat)
    requires z.Valid() && i <= z.MaxSpanID()
    requires var s := SpansOf(z, z.MaxSpanID() + 1, compSize, uncompSize);
             Monotonic(s) && EndsWellFormed(s, compSize, uncompSize)
    ensures SpansOf(z, z.MaxSpanID() + 1, compSize, uncompSize)[i].endComp <= compSize
    decreases z.MaxSpanID() - i
  {
    if i < z.MaxSpanID() {
      CompressedEndsInside(z, compSize, uncompSize, i + 1);
      var s := SpansOf(z, z.MaxSpanID() + 1, compSize, uncompSize);
      if i + 1 < z.MaxSpanID() { assert s[i + 1].startComp < s[i + 1].endComp; }
    }
  }

  /** Header plus spans cover every compressed byte. */
  lemma {:induction false} CompressedBytesCovered(z: Zinfo, compSize: int, uncompSize: int, k: nat)
    requires z.Valid() && 0 <= z.MaxSpanID() && k < compSize
    ensures var s := SpansOf(z, z.MaxSpanID() + 1, compSize, uncompSize);
            k < s[0].startComp || exists i :: 0 <= i < |s| && InComp(s[i], k)
  {
    var s := SpansOf(z, z.MaxSpanID() + 1, compSize, uncompSize);
    if s[0].startComp <= k {
      if s[|s| - 1].startComp <= k {
        assert InComp(s[|s| - 1], k);
      } else {
        var i := BytesBeforeSpanCovered(z, compSize, uncompSize, |s| - 1, k);
      }
    }
  }

  /** Neighbouring spans of an accepted table overlap in exactly one byte, the last one of the first span,
      when the second span starts mid-byte, and in no byte otherwise. */
  lemma {:induction false} NeighboursShareMidByte(z: Zinfo, compSize: int, uncompSize: int, i: nat, k: int)
    requires z.Valid() && i < z.MaxSpanID() && k < compSize
    requires Monotonic(SpansOf(z, z.MaxSpanID() + 1, compSize, uncompSize))
    ensures var s := SpansOf(z, z.MaxSpanID() + 1, compSize, uncompSize);
            InComp(s[i], k) && InComp(s[i + 1], k) <==> StartsMidByte(z, i + 1) && k == s[i].endComp - 1
  {
    var s := SpansOf(z, z.MaxSpanID() + 1, compSize, uncompSize);
    assert s[i].startComp < s[i].endComp;
    if i + 1 < z.MaxSpanID() { assert s[i + 1].startComp < s[i + 1].endComp; }
    if z.Tar? { assert s[i + 1].startComp == s[i].endComp; }
  }
}
