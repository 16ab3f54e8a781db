/**
 The span manager as the code runs it: span states and cache slots change step by step.
 Each method is one uninterrupted call; SpanProtocol shows that interleaved calls keep the same invariant.
 */
module SpanManager {
  import opened Base
  import opened SpanIndex
  import opened Layers
  import opened SpanCell

  datatype SpanInfo = SpanInfo(
    spanStart: nat, spanEnd: nat, startOffInSpan: seq<int>, endOffInSpan: seq<int>, spanIndexInBuf: seq<int>)

  datatype ReadResult = EOF | Failed | Crashed | Served(n: nat)

  /** What a call comes to; `Panic` stops the program. */
  datatype Reply<+T> = Panic | Error | Reply(value: T)

  /** A slice of a buffer in memory. */
  function SliceOf(content: Bytes, lo: int, hi: int): Reply<Bytes> {
    if 0 <= lo <= hi <= |content| then Reply(content[lo..hi]) else Panic
  }

  /** What a reader of a section of a cached span delivers; a section that ends before it starts is empty. */
  function SectionOf(content: Bytes, lo: int, hi: int): Bytes {
    if 0 <= lo <= hi <= |content| then content[lo..hi] else []
  }

  /** What reading `lo` to `hi` of a span comes to: a span that is uncompressed already is read as a section
      of the cache, any other is sliced after it was uncompressed. */
  function ReadReply(L: Layer, id: nat, c: Cell, lo: int, hi: int, io: SpanIO, tries: nat): Reply<Bytes>
    requires L.IndexOk() && id <= L.z.MaxSpanID() && tries <= |io.answers|
  {
    var content := GetSpan(L, id, c, io, tries).1;
    if content.None? then Error
    else if c.state == Uncompressed then Reply(SectionOf(content.value, lo, hi))
    else SliceOf(content.value, lo, hi)
  }

  /** Every span's bytes arrive within the tries, after mismatches only, and nothing else fails. */
  ghost predicate AllGood(L: Layer, io: nat -> SpanIO, tries: nat)
    requires L.IndexOk()
  {
    forall i: nat :: i <= L.z.MaxSpanID() ==> GoodIO(L, i, io(i), tries)
  }

  lemma {:induction false} GoodForSpan(L: Layer, io: nat -> SpanIO, tries: nat, i: nat)
    requires L.IndexOk() && i <= L.z.MaxSpanID()
    ensures AllGood(L, io, tries) ==> GoodIO(L, i, io(i), tries)
  {
  }

  /** Number of bytes the first `n` slices of a request starting in span `a` hold. */
  function PlanSize(spans: seq<Span>, start: int, end: int, a: nat, n: nat): int
    requires a + n <= |spans|
  {
    if n == 0 then 0
    else PlanSize(spans, start, end, a, n - 1) + HiInSpan(spans[a + n - 1], end) - LoInSpan(spans[a + n - 1], start)
  }

  function StartOffsets(spans: seq<Span>, start: int, a: nat, n: nat): seq<int>
    requires a + n <= |spans|
  {
    seq(n, j requires 0 <= j < n => LoInSpan(spans[a + j], start))
  }

  function EndOffsets(spans: seq<Span>, end: int, a: nat, n: nat): seq<int>
    requires a + n <= |spans|
  {
    seq(n, j requires 0 <= j < n => HiInSpan(spans[a + j], end))
  }

  function BufferIndexes(spans: seq<Span>, start: int, end: int, a: nat, n: nat): seq<int>
    requires a + n <= |spans|
  {
    seq(n, j requires 0 <= j < n => PlanSize(spans, start, end, a, j))
  }

  /** A request cut into one slice per span. */
  function PlanOf(z: Zinfo, spans: seq<Span>, start: nat, end: nat): SpanInfo
    requires z.Valid()
    requires z.UncompressedOffsetToSpanID(start) <= z.UncompressedOffsetToSpanID(end) < |spans|
  {
    var a, b := z.UncompressedOffsetToSpanID(start), z.UncompressedOffsetToSpanID(end);
    var n := b - a + 1;
    SpanInfo(a, b, StartOffsets(spans, start, a, n), EndOffsets(spans, end, a, n),
             BufferIndexes(spans, start, end, a, n))
  }

  /** Cuts a request into one slice per span; a request that ends behind the table makes it look outside. */
  method GetSpanInfo(z: Zinfo, spans: seq<Span>, offStart: nat, offEnd: nat) returns (si: Option<SpanInfo>)
    requires z.Valid() && z.UncompressedOffsetToSpanID(offStart) <= z.UncompressedOffsetToSpanID(offEnd)
    ensures si.Some? <==> z.UncompressedOffsetToSpanID(offEnd) < |spans|
    ensures si.Some? ==> si.value == PlanOf(z, spans, offStart, offEnd)
  {
    var spanStart := z.UncompressedOffsetToSpanID(offStart);
    var spanEnd := z.UncompressedOffsetToSpanID(offEnd);
    if spanStart >= |spans| {
      return None;
    }
    var start, end, index := [], [], [];
    var bufSize := 0;
    var i := spanStart;
    while i <= spanEnd
      invariant spanStart <= i <= spanEnd + 1 && i <= |spans|
      invariant bufSize == PlanSize(spans, offStart, offEnd, spanStart, i - spanStart)
      invariant start == StartOffsets(spans, offStart, spanStart, i - spanStart)
      invariant end == EndOffsets(spans, offEnd, spanStart, i - spanStart)
      invariant index == BufferIndexes(spans, offStart, offEnd, spanStart, i - spanStart)
    {
      if i >= |spans| {
        return None;
      }
      index := index + [bufSize];
      var s := spans[i];
      var lo := 0;
      if offStart > s.startUncomp {
        lo := offStart - s.startUncomp;
      }
      var hi;
      if offEnd < s.endUncomp {
        hi := offEnd - s.startUncomp;
      } else {
        hi := s.endUncomp - s.startUncomp;
      }
      start, end := start + [lo], end + [hi];
      bufSize := bufSize + hi - lo;
      i := i + 1;
    }
    return Some(SpanInfo(spanStart, spanEnd, start, end, index));
  }

  /** What making a manager comes to: `Stopped` divides by a span size of zero or looks for the first of no
      checkpoints, `Empty` is the manager of an archive without spans. */
  datatype Made = Stopped | Refused | Empty | Made(m: SpanManager)

  /** Makes a manager, or refuses the index. Reading and verifying the archive's header may fail; that an
      accepted index describes the archive is trusted. */
  method New(L: Layer, maxSpanID: int, headerRead: bool, headerOk: bool, retries: int) returns (r: Made)
    requires L.z.Tar? ==> 0 <= L.z.spanSize && 0 <= L.z.size
    requires L.z.Valid() && 0 <= maxSpanID == L.z.MaxSpanID() == |L.digests| - 1 && headerRead && headerOk ==>
               Monotonic(SpansOf(L.z, maxSpanID + 1, |L.comp|, |L.uncomp|)) ==> L.Sound()
    ensures L.z.Tar? && L.z.spanSize == 0 ==> r.Stopped?
    ensures L.z.Gzip? && L.z.list == [] ==> r == if maxSpanID == -1 && L.digests == [] then Stopped else Refused
    ensures L.z.Valid() ==> !r.Stopped?
    ensures L.z.Valid() ==>
              (r.Refused? <==>
                 || maxSpanID != L.z.MaxSpanID() || |L.digests| != maxSpanID + 1 || !headerRead || !headerOk
                 || !Monotonic(SpansOf(L.z, L.z.MaxSpanID() + 1, |L.comp|, |L.uncomp|)))
    ensures L.z.Valid() ==> (r.Empty? ==> L.z.MaxSpanID() == -1) && (r.Made? ==> 0 <= L.z.MaxSpanID())
    ensures r.Made? ==> fresh(r.m) && r.m.Valid() && r.m.L == L
    ensures r.Made? ==> r.m.retries == (if retries < 0 then 3 else retries) && r.m.cache == map[]
    ensures r.Made? ==> forall i :: 0 <= i < |r.m.states| ==> r.m.states[i] == Unrequested
  {
    if L.z.Tar? && L.z.spanSize == 0 {
      return Stopped;
    }
    if maxSpanID != L.z.MaxSpanID() || |L.digests| != L.z.MaxSpanID() + 1 {
      return Refused;
    }
    if L.z.Gzip? && L.z.list == [] {
      return Stopped;
    }
    if !headerRead || !headerOk {
      return Refused;
    }
    var ok, spans := BuildAllSpans(L.z, |L.comp|, |L.uncomp|);
    if !ok {
      return Refused;
    }
    if L.z.MaxSpanID() < 0 {
      NoSpansLeft(L.z);
      return Empty;
    }
    var m := new SpanManager(L, retries);
    return Made.Made(m);
  }

  lemma {:induction false} NoSpansLeft(z: Zinfo)
    requires z.Valid() && z.MaxSpanID() < 0
    ensures z.MaxSpanID() == -1
  {
  }

  /** Entry `j` of a plan is the slice a request takes of its `j`-th span. */
  predicate CutAt(si: SpanInfo, spans: seq<Span>, start: int, end: int, j: nat) {
    && si.spanStart + j < |spans| && j < |si.startOffInSpan| && j < |si.endOffInSpan|
    && si.startOffInSpan[j] == LoInSpan(spans[si.spanStart + j], start)
    && si.endOffInSpan[j] == HiInSpan(spans[si.spanStart + j], end)
  }

  /** The plan of a request whose end is found is that of the located request it is served as. */
  lemma {:induction false} PlanCuts(L: Layer, si: SpanInfo, start: nat, end: nat)
    requires L.IndexOk() && start <= end <= |L.uncomp| && EndFound(L, end)
    requires SpanFor(L, start) <= SpanFor(L, end) < |L.Spans()| && si == PlanOf(L.z, L.Spans(), start, end)
    ensures forall j: nat :: j <= si.spanEnd - si.spanStart ==> CutAt(si, L.Spans(), ServedFrom(L, start), end, j)
  {
    RequestIsServed(L, start, end);
    var spans, from := L.Spans(), ServedFrom(L, start);
    forall j: nat | j <= si.spanEnd - si.spanStart ensures CutAt(si, spans, from, end, j) {
      assert LoInSpan(spans[si.spanStart + j], start) == LoInSpan(spans[si.spanStart + j], from);
    }
  }

  class SpanManager {
    const L: Layer
    const spans: seq<Span>
    const retries: nat
    var states: seq<SpanState>
    var cache: map<nat, Bytes>

    constructor (L: Layer, retries: int)
      requires L.Sound()
      ensures Valid() && this.L == L && this.retries == if retries < 0 then 3 else retries
      ensures states == seq(|L.Spans()|, _ => Unrequested) && cache == map[]
    {
      this.L := L;
      this.retries := if retries < 0 then 3 else retries;
      this.spans := L.Spans();
      this.states := seq(|L.Spans()|, _ => Unrequested);
      this.cache := map[];
    }

    function Slot(id: nat): Option<Bytes>
      reads this
    {
      if id in cache then Some(cache[id]) else None
    }

    function CellAt(id: nat): Cell
      requires id < |states|
      reads this
    {
      Cell(states[id], Slot(id))
    }

    /** All cells at once. */
    ghost function Cells(): (cells: seq<Cell>)
      requires Shaped()
      reads this
      ensures |cells| == |states| && forall i: nat :: i < |states| ==> cells[i] == CellAt(i)
    {
      seq(|states|, i requires 0 <= i < |states| reads this => CellAt(i))
    }

    ghost predicate Shaped()
      reads this
    {
      L.Sound() && spans == L.Spans() && |states| == |spans|
    }

    ghost predicate Valid()
      reads this
    {
      Shaped() && forall i: nat :: i < |states| ==> CellOk(ContentOf(L, i), CellAt(i))
    }

    method SetState(id: nat, next: SpanState) returns (ok: bool)
      requires id < |states|
      modifies this`states
      ensures ok <==> next in ValidNext(old(states)[id])
      ensures states == if ok then old(states)[id := next] else old(states)
    {
      ok := next in ValidNext(states[id]);
      if ok {
        states := states[id := next];
      }
    }

    /** Retries failed verifications, but not failed or short reads. */
    method FetchSpanWithRetries(id: nat, answers: seq<ReadOutcome>) returns (r: Option<Bytes>)
      requires Shaped() && id < |states| && retries < |answers|
      ensures r == FetchWithRetries(L, id, answers, retries + 1)
      ensures forall b :: r == Some(b) <==> FirstVerified(L, id, answers, retries + 1, b)
    {
      forall b ensures FetchWithRetries(L, id, answers, retries + 1) == Some(b) <==>
          FirstVerified(L, id, answers, retries + 1, b)
      {
        FetchReturnsFirstVerified(L, id, answers, retries + 1, b);
      }
      var size := spans[id].endComp - spans[id].startComp;
      CompressedSpanInside(L.z, |L.comp|, |L.uncomp|, id);
      var i := 0;
      while i < retries + 1
        invariant 0 <= i <= retries + 1
        invariant FetchWithRetries(L, id, answers, retries + 1) ==
            FetchWithRetries(L, id, answers[i..], retries + 1 - i)
      {
        assert answers[i..][0] == answers[i] && answers[i..][1..] == answers[i + 1..];
        match answers[i] {
          case ReadError => return None;
          case Read(data) =>
            if |data| != size { return None; }
            if Verified(L, id, data) { return Some(data); }
        }
        i := i + 1;
      }
      r := None;
    }

    method AddSpanToCache(id: nat, contents: Bytes, ok: bool)
      modifies this`cache
      ensures cache == if ok then old(cache)[id := contents] else old(cache)
    {
      if ok {
        cache := cache[id := contents];
      }
    }

    method FetchAndCacheSpan(id: nat, uncompress: bool, io: SpanIO) returns (r: Option<Bytes>)
      requires Shaped() && id < |states| && retries < |io.answers|
      modifies this
      ensures Shaped()
      ensures (CellAt(id), r) == FetchAndCache(L, id, old(CellAt(id)), uncompress, io, retries + 1)
      ensures forall j: nat :: j < |states| && j != id ==> CellAt(j) == old(CellAt(j))
    {
      var ok := SetState(id, Requested);
      if !ok {
        return None;
      }
      r := FetchSpanWithRetries(id, io.answers);
      var target := Fetched;
      if r.Some? && uncompress {
        r := UncompressSpan(L, id, r.value, io.inflateOk);
        target := Uncompressed;
      }
      if r.Some? {
        AddSpanToCache(id, r.value, io.addOk);
        if io.addOk {
          ok := SetState(id, target);
        } else {
          r := None;
        }
      }
      if r.None? && states[id] == Requested {
        ok := SetState(id, Unrequested);
      }
    }

    /** The background fetcher's entry point. */
    method FetchSingleSpan(id: nat, io: SpanIO) returns (ok: bool)
      requires Valid() && retries < |io.answers|
      modifies this
      ensures Valid()
      ensures |states| <= id ==> !ok && states == old(states) && cache == old(cache)
      ensures forall j: nat :: j < |states| && j != id ==> CellAt(j) == old(CellAt(j))
      ensures id < |states| && old(states)[id] != Unrequested ==> ok && states == old(states) && cache == old(cache)
      ensures id < |states| && old(states)[id] == Unrequested ==>
                && (ok <==> io.addOk && FirstVerified(L, id, io.answers, retries + 1, L.CompSpan(id)))
                && CellAt(id) == if ok then Cell(Fetched, Some(L.CompSpan(id))) else old(CellAt(id))
    {
      if id >= |states| {
        return false;
      }
      if states[id] != Unrequested {
        return true;
      }
      FetchAndCacheKeepsCell(L, id, CellAt(id), false, io, retries + 1);
      var r := FetchAndCacheSpan(id, false, io);
      ok := r.Some?;
    }

    method ResolveSpan(id: nat, io: SpanIO) returns (ok: bool)
      requires Valid() && retries < |io.answers|
      modifies this
      ensures Valid()
      ensures |states| <= id ==> !ok && states == old(states) && cache == old(cache)
      ensures forall j: nat :: j < |states| && j != id ==> CellAt(j) == old(CellAt(j))
      ensures id < |states| ==> (CellAt(id), ok) == Resolve(L, id, old(CellAt(id)), io, retries + 1)
      ensures ok ==> states[id] == Uncompressed
    {
      if id >= |states| {
        return false;
      }
      if states[id] == Uncompressed {
        return true;
      }
      FetchAndCacheKeepsCell(L, id, CellAt(id), true, io, retries + 1);
      var r := FetchAndCacheSpan(id, true, io);
      ok := r.Some?;
    }

    /** Reads from `offStart` to `offEnd` of a span. A request in front of the span table asks for an end below
        the start. */
    method GetSpanContent(id: nat, offStart: int, offEnd: int, io: SpanIO) returns (r: Reply<Bytes>)
      requires Valid() && id < |states| && retries < |io.answers|
      requires 0 <= offStart <= |L.UncompSpan(id)| && offEnd <= |L.UncompSpan(id)|
      modifies this
      ensures Valid()
      ensures r == ReadReply(L, id, old(CellAt(id)), offStart, offEnd, io, retries + 1)
      ensures r.Reply? ==> r.value == SectionOf(L.UncompSpan(id), offStart, offEnd)
      ensures r.Panic? ==> offEnd < offStart
      ensures GoodIO(L, id, io, retries + 1) ==> !r.Error?
      ensures if r.Error? then CellAt(id) == old(CellAt(id)) else states[id] == Uncompressed
      ensures CellAt(id) == GetSpan(L, id, old(CellAt(id)), io, retries + 1).0
      ensures forall j: nat :: j < |states| && j != id ==> CellAt(j) == old(CellAt(j))
    {
      GetSpanKeepsCell(L, id, CellAt(id), io, retries + 1);
      if states[id] == Uncompressed {
        return if io.getOk then Reply(SectionOf(cache[id], offStart, offEnd)) else Error;
      }
      var content;
      if states[id] == Fetched {
        content := UncompressFetched(id, io);
      } else {
        content := FetchAndCacheSpan(id, true, io);
      }
      return if content.Some? then SliceOf(content.value, offStart, offEnd) else Error;
    }

    /** Uncompresses a span that is cached in compressed form. */
    method UncompressFetched(id: nat, io: SpanIO) returns (r: Option<Bytes>)
      requires Shaped() && id < |states| && states[id] == Fetched && id in cache && retries < |io.answers|
      modifies this
      ensures Shaped()
      ensures (CellAt(id), r) == GetSpan(L, id, old(CellAt(id)), io, retries + 1)
      ensures forall j: nat :: j < |states| && j != id ==> CellAt(j) == old(CellAt(j))
    {
      if !io.getOk {
        return None;
      }
      r := UncompressSpan(L, id, cache[id], io.inflateOk);
      if r.None? {
        return None;
      }
      AddSpanToCache(id, r.value, io.addOk);
      if !io.addOk {
        return None;
      }
      var ok := SetState(id, Uncompressed);
    }

    /** The first `n` slices of a plan were got, the cells being `was` before. */
    ghost predicate Got(was: seq<Cell>, si: SpanInfo, io: nat -> SpanIO, n: nat, r: Reply<seq<Bytes>>)
      reads this
    {
      && Valid() && PiecesOk(L, si, io, retries + 1, n, r)
      && Advanced(was, Cells(), si.spanStart, si.spanStart + n)
      && (r.Reply? ==> AllUncompressed(Cells(), si.spanStart, si.spanStart + n))
    }

    /** Gets the slices of the spans of a request; a failed span fails the request. */
    method GetPieces(si: SpanInfo, io: nat -> SpanIO) returns (r: Reply<seq<Bytes>>)
      requires Valid() && si.spanStart <= si.spanEnd < |states| && forall i :: retries < |io(i).answers|
      requires forall j: nat :: j <= si.spanEnd - si.spanStart ==> Asked(L, si, j)
      modifies this
      ensures Got(old(Cells()), si, io, si.spanEnd - si.spanStart + 1, r)
      ensures si.spanStart == si.spanEnd ==> r == FirstPiece(L, si, old(CellAt(si.spanStart)), io, retries + 1)
    {
      var n := si.spanEnd - si.spanStart + 1;
      ghost var was := Cells();
      assert Asked(L, si, 0);
      r := AddPiece(si, 0, Reply([]), io, was);
      var j: nat := 1;
      while j < n
        invariant 1 <= j <= n && Got(was, si, io, j, r)
        invariant j == 1 ==> r == FirstPiece(L, si, was[si.spanStart], io, retries + 1)
      {
        assert Asked(L, si, j);
        r := AddPiece(si, j, r, io, was);
        j := j + 1;
      }
    }

    /** Adds the slice of the next span to those before it. */
    method AddPiece(si: SpanInfo, j: nat, before: Reply<seq<Bytes>>, io: nat -> SpanIO, ghost was: seq<Cell>)
      returns (r: Reply<seq<Bytes>>)
      requires Valid() && Asked(L, si, j) && Got(was, si, io, j, before) && forall i :: retries < |io(i).answers|
      modifies this
      ensures Got(was, si, io, j + 1, r)
      ensures j == 0 && before == Reply([]) ==> r == FirstPiece(L, si, old(CellAt(si.spanStart)), io, retries + 1)
    {
      ghost var mid := Cells();
      GoodForSpan(L, io, retries + 1, si.spanStart + j);
      var piece := GetSpanContent(si.spanStart + j, si.startOffInSpan[j], si.endOffInSpan[j], io(si.spanStart + j));
      r := Joined(before, piece);
      OneMorePiece(L, si, io, retries + 1, j, before, piece);
      OneMoreAdvanced(was, mid, Cells(), si.spanStart, si.spanStart + j);
    }

    /** Stitches the slices of all spans of a request together. A request that starts in front of the span
        table gets the bytes from the start of the table on. A request whose end the table has no span for
        stops the program, unless it ends in front of a table whose first span is uncompressed already or
        cannot be got. */
    method GetContents(offStart: nat, offEnd: nat, io: nat -> SpanIO) returns (r: Reply<Bytes>)
      requires Valid() && offStart <= offEnd <= |L.uncomp| && forall i :: retries < |io(i).answers|
      modifies this
      ensures Valid()
      ensures EndFound(L, offEnd) ==> !r.Panic? && offStart <= ServedFrom(L, offStart) <= offEnd
      ensures EndFound(L, offEnd) && r.Reply? ==> r.value == L.uncomp[ServedFrom(L, offStart)..offEnd]
      ensures EndFound(L, offEnd) && r.Reply? ==>
                (r.value == L.uncomp[offStart..offEnd] <==> Locatable(L, offStart, offEnd))
      ensures EndFound(L, offEnd) && AllGood(L, io, retries + 1) ==> r.Reply?
      ensures Advanced(old(Cells()), Cells(), SpanFor(L, offStart), SpanFor(L, offEnd) + 1)
      ensures r.Reply? ==> AllUncompressed(Cells(), SpanFor(L, offStart), SpanFor(L, offEnd) + 1)
      ensures !EndFound(L, offEnd) && L.z.Tar? ==> r.Panic? && states == old(states) && cache == old(cache)
      ensures !EndFound(L, offEnd) && L.z.Gzip? ==>
                r == ReadReply(L, 0, old(CellAt(0)), 0, offEnd - L.Spans()[0].startUncomp, io(0), retries + 1)
    {
      LookupOrdered(L, offStart, offEnd);
      var si := GetSpanInfo(L.z, spans, offStart, offEnd);
      EndBehindTable(L, offStart, offEnd);
      if si.None? {
        return Panic;
      }
      r := GetPlanned(si.value, io, offStart, offEnd);
    }

    /** Gets and joins the slices of a plan. */
    method GetPlanned(si: SpanInfo, io: nat -> SpanIO, ghost offStart: nat, ghost offEnd: nat) returns (r: Reply<Bytes>)
      requires Valid() && offStart <= offEnd <= |L.uncomp| && forall i :: retries < |io(i).answers|
      requires SpanFor(L, offStart) <= SpanFor(L, offEnd) < |L.Spans()|
      requires si == PlanOf(L.z, L.Spans(), offStart, offEnd) && (!EndFound(L, offEnd) ==> L.z.Gzip?)
      modifies this
      ensures Valid()
      ensures EndFound(L, offEnd) ==> ReplyOk(L, offStart, offEnd, AllGood(L, io, retries + 1), r)
      ensures Advanced(old(Cells()), Cells(), si.spanStart, si.spanEnd + 1)
      ensures r.Reply? ==> AllUncompressed(Cells(), si.spanStart, si.spanEnd + 1)
      ensures !EndFound(L, offEnd) ==>
                r == ReadReply(L, 0, old(CellAt(0)), 0, offEnd - L.Spans()[0].startUncomp, io(0), retries + 1)
    {
      PlanIsAsked(L, si, offStart, offEnd);
      ghost var early := ReadReply(L, 0, CellAt(0), 0, offEnd - L.Spans()[0].startUncomp, io(0), retries + 1);
      var pieces := GetPieces(si, io);
      r := JoinAll(pieces);
      if EndFound(L, offEnd) {
        FoundReply(L, si, offStart, offEnd, io, retries + 1, pieces);
      } else {
        EarlyPlan(L, si, offStart, offEnd);
        JoinFirst(early);
      }
    }

    /** Reads from a file that occupies `fileSize` bytes of the archive at `fileOffset`. The readers of the
        request deliver their first `delivered` bytes and then fail. */
    method ReadAt(p: array<byte>, offset: nat, fileOffset: nat, fileSize: nat, verifyOk: bool, io: nat -> SpanIO,
                  delivered: nat)
      returns (r: ReadResult)
      requires Valid() && fileOffset + fileSize <= |L.uncomp|
      requires forall i :: retries < |io(i).answers|
      modifies this, p
      ensures Valid()
      ensures verifyOk && p.Length == 0 ==> r == Served(0)
      ensures verifyOk && p.Length > 0 ==> (r == EOF <==> fileSize <= offset)
      ensures r.Served? ==> r.n == ReadSize(p.Length, offset, fileSize) && verifyOk
      ensures r.Served? && r.n > 0 ==> p[..r.n] == L.uncomp[fileOffset + offset..fileOffset + offset + r.n]
      ensures BufferFilled(old(p[..]), p[..], L.uncomp, ServedFrom(L, fileOffset + offset),
                           fileOffset + offset + ReadSize(p.Length, offset, fileSize))
      ensures verifyOk && AllGood(L, io, retries + 1) && ReadSize(p.Length, offset, fileSize) <= delivered ==>
                (r.EOF? || r.Served? <==> ReadLocatable(L, fileOffset, fileSize, p.Length, offset))
      ensures Advanced(old(Cells()), Cells(), 0, |states|)
      ensures r == Crashed ==> verifyOk && ReadEndMissing(L, fileOffset, fileSize, p.Length, offset)
      ensures && verifyOk && ReadEndMissing(L, fileOffset, fileSize, p.Length, offset)
              && (L.z.Tar? || AllGood(L, io, retries + 1)) ==>
                (r == Crashed <==> L.z.Tar? || old(states)[0] != Uncompressed)
    {
      if !verifyOk {
        return Failed;
      }
      if p.Length == 0 {
        return Served(0);
      }
      if offset >= fileSize {
        return EOF;
      }
      var expected := fileSize - offset;
      if expected > p.Length {
        expected := p.Length;
      }
      r := ReadRange(p, fileOffset + offset, expected, io, delivered);
    }

    /** Reads `expected` bytes of the archive from `start` on, all or it fails. */
    method ReadRange(p: array<byte>, start: nat, expected: nat, io: nat -> SpanIO, delivered: nat)
      returns (r: ReadResult)
      requires Valid() && 0 < expected <= p.Length && start + expected <= |L.uncomp|
      requires forall i :: retries < |io(i).answers|
      modifies this, p
      ensures Valid()
      ensures r in {Failed, Crashed, Served(expected)}
      ensures r.Served? ==> p[..expected] == L.uncomp[start..start + expected]
      ensures BufferFilled(old(p[..]), p[..], L.uncomp, ServedFrom(L, start), start + expected)
      ensures AllGood(L, io, retries + 1) && expected <= delivered ==>
                (r.Served? <==> Locatable(L, start, start + expected))
      ensures Advanced(old(Cells()), Cells(), 0, |states|)
      ensures r == Crashed ==> !EndFound(L, start + expected)
      ensures !EndFound(L, start + expected) && (L.z.Tar? || AllGood(L, io, retries + 1)) ==>
                (r == Crashed <==> L.z.Tar? || old(states)[0] != Uncompressed)
    {
      if !EndFound(L, start + expected) && L.z.Gzip? { EarlyReply(L, CellAt(0), start + expected, io, retries + 1); }
      var contents := GetContents(start, start + expected, io);
      if contents.Panic? {
        return Crashed;
      }
      if contents.Error? {
        return Failed;
      }
      var n := ReadFull(p, contents.value, expected, delivered);
      if EndFound(L, start + expected) {
        FilledFromSlice(old(p[..]), p[..], L.uncomp, ServedFrom(L, start), start + expected, n);
      } else {
        assert n == 0 && p[0..] == old(p[0..]);
      }
      return if n < expected then Failed else Served(n);
    }
  }

  /** Cells from `a` to `b` stayed as they were or became uncompressed, all others stayed as they were. */
  predicate Advanced(was: seq<Cell>, now: seq<Cell>, a: nat, b: nat) {
    && |was| == |now|
    && forall i {:trigger now[i]} :: 0 <= i < |now| ==>
         now[i] == was[i] || (a <= i < b && now[i].state == Uncompressed)
  }

  predicate AllUncompressed(cells: seq<Cell>, a: nat, b: nat) {
    forall i {:trigger cells[i]} :: a <= i < b && i < |cells| ==> cells[i].state == Uncompressed
  }

  lemma {:induction false} OneMoreAdvanced(was: seq<Cell>, mid: seq<Cell>, now: seq<Cell>, a: nat, b: nat)
    requires a <= b && Advanced(was, mid, a, b) && Advanced(mid, now, b, b + 1)
    ensures Advanced(was, now, a, b + 1)
    ensures AllUncompressed(mid, a, b) && (b < |now| ==> now[b].state == Uncompressed) ==>
              AllUncompressed(now, a, b + 1)
  {
    forall i | 0 <= i < |now| ensures now[i] == was[i] || (a <= i < b + 1 && now[i].state == Uncompressed) {
      assert mid[i] == was[i] || (a <= i < b && mid[i].state == Uncompressed);
    }
    if AllUncompressed(mid, a, b) && (b < |now| ==> now[b].state == Uncompressed) {
      forall i | a <= i < b + 1 && i < |now| ensures now[i].state == Uncompressed {
        assert i < b ==> mid[i].state == Uncompressed;
      }
    }
  }

  /** The slice a plan asks of its `j`-th span starts and ends not behind the span. */
  predicate Asked(L: Layer, si: SpanInfo, j: nat)
    requires L.IndexOk()
  {
    && si.spanStart + j <= L.z.MaxSpanID() && j < |si.startOffInSpan| && j < |si.endOffInSpan|
    && 0 <= si.startOffInSpan[j] <= |L.UncompSpan(si.spanStart + j)|
    && si.endOffInSpan[j] <= |L.UncompSpan(si.spanStart + j)|
  }

  /** The slice a plan asks of its `j`-th span ends before it starts. */
  predicate Backwards(si: SpanInfo, j: nat) {
    j < |si.startOffInSpan| && j < |si.endOffInSpan| && si.endOffInSpan[j] < si.startOffInSpan[j]
  }

  /** Each piece is what the plan asks of its span, nothing where it ends before it starts. */
  ghost predicate PiecesRead(L: Layer, si: SpanInfo, pieces: seq<Bytes>)
    requires L.IndexOk()
  {
    forall j {:trigger pieces[j]} :: 0 <= j < |pieces| ==>
      && Asked(L, si, j)
      && pieces[j] == SectionOf(L.UncompSpan(si.spanStart + j), si.startOffInSpan[j], si.endOffInSpan[j])
  }

  /** What the first `n` slices of a plan come to. */
  ghost predicate PiecesOk(L: Layer, si: SpanInfo, io: nat -> SpanIO, tries: nat, n: nat, r: Reply<seq<Bytes>>)
    requires L.IndexOk()
  {
    && (r.Reply? ==> |r.value| == n && PiecesRead(L, si, r.value))
    && (r.Panic? ==> exists k: nat :: k < n && Backwards(si, k))
    && (AllGood(L, io, tries) ==> !r.Error?)
  }

  /** The reply for the first slice of a plan, when nothing was read before. */
  function FirstPiece(L: Layer, si: SpanInfo, c: Cell, io: nat -> SpanIO, tries: nat): Reply<seq<Bytes>>
    requires L.IndexOk() && Asked(L, si, 0) && tries <= |io(si.spanStart).answers|
  {
    Joined(Reply([]), ReadReply(L, si.spanStart, c, si.startOffInSpan[0], si.endOffInSpan[0], io(si.spanStart), tries))
  }

  /** The pieces so far with one more; a panic stops everything, an error fails everything. */
  function Joined(before: Reply<seq<Bytes>>, piece: Reply<Bytes>): Reply<seq<Bytes>> {
    if before.Panic? || piece.Panic? then Panic
    else if before.Error? || piece.Error? then Error
    else Reply(before.value + [piece.value])
  }

  function JoinAll(pieces: Reply<seq<Bytes>>): Reply<Bytes> {
    match pieces
    case Panic => Panic
    case Error => Error
    case Reply(list) => Reply(Flatten(list))
  }

  lemma {:induction false} JoinFirst(piece: Reply<Bytes>)
    ensures JoinAll(Joined(Reply([]), piece)) == piece
  {
    if piece.Reply? {
      FlattenSnoc([], piece.value);
      assert Flatten<byte>([]) + piece.value == piece.value;
    }
  }

  lemma {:induction false} OneMorePiece(L: Layer, si: SpanInfo, io: nat -> SpanIO, tries: nat, j: nat,
        before: Reply<seq<Bytes>>, piece: Reply<Bytes>)
    requires L.IndexOk() && Asked(L, si, j) && PiecesOk(L, si, io, tries, j, before)
    requires piece.Reply? ==>
               piece.value == SectionOf(L.UncompSpan(si.spanStart + j), si.startOffInSpan[j], si.endOffInSpan[j])
    requires (piece.Panic? ==> Backwards(si, j)) && (AllGood(L, io, tries) ==> !piece.Error?)
    ensures PiecesOk(L, si, io, tries, j + 1, Joined(before, piece))
  {
    if before.Reply? && piece.Reply? { OneMoreRead(L, si, before.value, piece.value); }
  }

  lemma {:induction false} OneMoreRead(L: Layer, si: SpanInfo, pieces: seq<Bytes>, piece: Bytes)
    requires L.IndexOk() && PiecesRead(L, si, pieces) && Asked(L, si, |pieces|)
    requires var j := |pieces|;
             piece == SectionOf(L.UncompSpan(si.spanStart + j), si.startOffInSpan[j], si.endOffInSpan[j])
    ensures PiecesRead(L, si, pieces + [piece])
  {
    var all := pieces + [piece];
    forall k | 0 <= k < |all|
      ensures Asked(L, si, k)
      ensures all[k] == SectionOf(L.UncompSpan(si.spanStart + k), si.startOffInSpan[k], si.endOffInSpan[k])
    {
      if k < |pieces| { assert all[k] == pieces[k]; }
    }
  }

  /** A request that ends in front of the table ends in front of its first span. */
  lemma {:induction false} EarlyEnd(L: Layer, end: nat)
    requires L.IndexOk() && L.z.Gzip? && end <= |L.uncomp| && !EndFound(L, end)
    ensures SpanFor(L, end) == 0 && end < L.Spans()[0].startUncomp <= L.Spans()[0].endUncomp
  {
    assert Tiling(L.Spans(), |L.uncomp|) by { AcceptedTableTiles(L.z, |L.comp|, |L.uncomp|); }
    EarlyOffsetInFirstSpan(L.z, |L.comp|, |L.uncomp|, end);
    L.UncompInside(0);
  }

  lemma {:induction false} EarlyCuts(s: Span, start: int, end: int)
    requires start <= end < s.startUncomp <= s.endUncomp
    ensures LoInSpan(s, start) == 0 && HiInSpan(s, end) == end - s.startUncomp < 0
  {
  }

  /** The plan of a request that ends in front of the table: nothing before the start of the first span. */
  lemma {:induction false} EarlyPlan(L: Layer, si: SpanInfo, start: nat, end: nat)
    requires L.IndexOk() && L.z.Gzip? && start <= end <= |L.uncomp| && !EndFound(L, end)
    requires SpanFor(L, start) <= SpanFor(L, end) < |L.Spans()| && si == PlanOf(L.z, L.Spans(), start, end)
    ensures si.spanStart == si.spanEnd == 0 && |si.startOffInSpan| == |si.endOffInSpan| == 1
    ensures si.startOffInSpan[0] == 0 && si.endOffInSpan[0] == end - L.Spans()[0].startUncomp < 0
  {
    EarlyEnd(L, end);
    EarlyCuts(L.Spans()[0], start, end);
  }

  lemma {:induction false} PlanIsAsked(L: Layer, si: SpanInfo, start: nat, end: nat)
    requires L.IndexOk() && start <= end <= |L.uncomp|
    requires SpanFor(L, start) <= SpanFor(L, end) < |L.Spans()| && si == PlanOf(L.z, L.Spans(), start, end)
    ensures forall j: nat :: j <= si.spanEnd - si.spanStart ==> Asked(L, si, j)
  {
    forall j: nat | j <= si.spanEnd - si.spanStart ensures Asked(L, si, j) {
      if EndFound(L, end) {
        PlannedPiece(L, si, start, end, j);
      } else {
        EndBehindTable(L, start, end);
        EarlyPlan(L, si, start, end);
      }
    }
  }

  /** The slice planned of one span is its piece of the located request. */
  lemma {:induction false} PlannedPiece(L: Layer, si: SpanInfo, start: nat, end: nat, j: nat)
    requires L.IndexOk() && start <= end <= |L.uncomp| && EndFound(L, end) && SpanFor(L, start) + j <= SpanFor(L, end)
    requires SpanFor(L, start) <= SpanFor(L, end) < |L.Spans()| && si == PlanOf(L.z, L.Spans(), start, end)
    ensures Asked(L, si, j) && !Backwards(si, j)
    ensures Located(L, ServedFrom(L, start), end, si.spanStart, si.spanEnd)
    ensures SectionOf(L.UncompSpan(si.spanStart + j), si.startOffInSpan[j], si.endOffInSpan[j])
         == Piece(L, ServedFrom(L, start), end, si.spanStart, si.spanEnd, si.spanStart + j)
  {
    RequestIsServed(L, start, end);
    PlanCuts(L, si, start, end);
    assert CutAt(si, L.Spans(), ServedFrom(L, start), end, j);
    PieceInside(L, ServedFrom(L, start), end, si.spanStart, si.spanEnd, si.spanStart + j);
  }

  lemma {:induction false} NothingBackwards(L: Layer, si: SpanInfo, start: nat, end: nat)
    requires L.IndexOk() && start <= end <= |L.uncomp| && EndFound(L, end)
    requires SpanFor(L, start) <= SpanFor(L, end) < |L.Spans()| && si == PlanOf(L.z, L.Spans(), start, end)
    ensures start <= ServedFrom(L, start) <= end
    ensures forall j: nat :: j <= si.spanEnd - si.spanStart ==> !Backwards(si, j)
  {
    RequestIsServed(L, start, end);
    forall j: nat | j <= si.spanEnd - si.spanStart ensures !Backwards(si, j) {
      PlannedPiece(L, si, start, end, j);
    }
  }

  lemma {:induction false} PiecesServed(L: Layer, si: SpanInfo, start: nat, end: nat, pieces: seq<Bytes>)
    requires L.IndexOk() && start <= end <= |L.uncomp| && EndFound(L, end)
    requires SpanFor(L, start) <= SpanFor(L, end) < |L.Spans()| && si == PlanOf(L.z, L.Spans(), start, end)
    requires |pieces| == si.spanEnd - si.spanStart + 1 && PiecesRead(L, si, pieces)
    ensures start <= ServedFrom(L, start) <= end && Flatten(pieces) == L.uncomp[ServedFrom(L, start)..end]
  {
    RequestIsServed(L, start, end);
    var from, a, b := ServedFrom(L, start), si.spanStart, si.spanEnd;
    forall j | 0 <= j < |pieces| ensures pieces[j] == Piece(L, from, end, a, b, a + j) {
      PlannedPiece(L, si, start, end, j);
    }
    PiecesFromEach(L, from, end, a, b, pieces);
    PiecesMakeSlice(L, from, end, a, b);
  }

  /** The reply to a request whose end is found: the archive from where the request or the table starts, the
      requested bytes exactly when it is located, and no failure in a good environment. */
  predicate ReplyOk(L: Layer, start: nat, end: nat, good: bool, r: Reply<Bytes>)
    requires L.IndexOk() && start <= end <= |L.uncomp|
  {
    && !r.Panic? && start <= ServedFrom(L, start) <= end && (good ==> r.Reply?)
    && (r.Reply? ==> r.value == L.uncomp[ServedFrom(L, start)..end])
    && (r.Reply? ==> (r.value == L.uncomp[start..end] <==> Locatable(L, start, end)))
  }

  /** What the pieces of a request whose end is found come to. */
  lemma {:induction false} FoundReply(L: Layer, si: SpanInfo, start: nat, end: nat, io: nat -> SpanIO, tries: nat,
        pieces: Reply<seq<Bytes>>)
    requires L.IndexOk() && start <= end <= |L.uncomp| && EndFound(L, end)
    requires SpanFor(L, start) <= SpanFor(L, end) < |L.Spans()| && si == PlanOf(L.z, L.Spans(), start, end)
    requires PiecesOk(L, si, io, tries, si.spanEnd - si.spanStart + 1, pieces)
    ensures ReplyOk(L, start, end, AllGood(L, io, tries), JoinAll(pieces))
  {
    if pieces.Reply? { PiecesServed(L, si, start, end, pieces.value); }
    NothingBackwards(L, si, start, end);
    ServedRightIffLocatable(L, start, end);
  }

  /** Reading in front of the table: nothing, an error, or a panic when the first span was not uncompressed. */
  lemma {:induction false} EarlyReply(L: Layer, c: Cell, end: nat, io: nat -> SpanIO, tries: nat)
    requires L.Sound() && L.z.Gzip? && end <= |L.uncomp| && !EndFound(L, end) && CellOk(ContentOf(L, 0), c)
    requires tries <= |io(0).answers|
    ensures var r := ReadReply(L, 0, c, 0, end - L.Spans()[0].startUncomp, io(0), tries);
            && (r.Reply? ==> r.value == []) && (r.Panic? ==> c.state != Uncompressed)
            && (AllGood(L, io, tries) ==> (r.Panic? <==> c.state != Uncompressed))
  {
    GetSpanKeepsCell(L, 0, c, io(0), tries);
    GoodForSpan(L, io, tries, 0);
  }

  /** A read asks for bytes whose end the span table has no span for. */
  predicate ReadEndMissing(L: Layer, fileOffset: nat, fileSize: nat, space: nat, offset: nat)
    requires L.IndexOk()
  {
    var n := ReadSize(space, offset, fileSize);
    0 < n && !EndFound(L, fileOffset + offset + n)
  }

  /** A read of a file asks for nothing, or the span table does not start behind it and has a span for its end. */
  predicate ReadLocatable(L: Layer, fileOffset: nat, fileSize: nat, space: nat, offset: nat)
    requires L.IndexOk()
  {
    var start, n := fileOffset + offset, ReadSize(space, offset, fileSize);
    n == 0 || Locatable(L, start, start + n)
  }

  /** How many bytes a read of a file asks for. */
  function ReadSize(space: nat, offset: nat, fileSize: nat): nat {
    if fileSize <= offset then 0 else Min(space, fileSize - offset)
  }

  /** Every byte of a buffer is as before or the archive's, the first ones of the stretch from `start` to `end`. */
  predicate BufferFilled(before: Bytes, after: Bytes, archive: Bytes, start: nat, end: nat) {
    && |before| == |after|
    && forall k :: 0 <= k < |after| ==>
         after[k] == before[k] || (start + k < end && start + k < |archive| && after[k] == archive[start + k])
  }

  /** Copies `data`, of which `delivered` bytes arrive, to the front of `p`, but no more than `expected`. */
  method ReadFull(p: array<byte>, data: Bytes, expected: nat, delivered: nat) returns (n: nat)
    requires expected <= p.Length
    modifies p
    ensures n == Min(Min(delivered, |data|), expected)
    ensures p[..n] == data[..n] && p[n..] == old(p[n..])
  {
    n := Min(Min(delivered, |data|), expected);
    forall k | 0 <= k < n {
      p[k] := data[k];
    }
  }

  lemma {:induction false} FilledFromSlice(before: Bytes, after: Bytes, archive: Bytes, start: nat, end: nat, n: nat)
    requires start <= end <= |archive| && |before| == |after| && n <= |after| && n <= end - start
    requires after[..n] == archive[start..end][..n] && after[n..] == before[n..]
    ensures BufferFilled(before, after, archive, start, end)
  {
    forall k | 0 <= k < |after|
      ensures after[k] == before[k] || (start + k < end && after[k] == archive[start + k])
    {
      if k < n {
        assert after[k] == after[..n][k] == archive[start..end][..n][k];
      } else {
        assert after[k] == after[n..][k - n] == before[n..][k - n];
      }
    }
  }

  function Min(a: int, b: int): int {
    if a < b then a else b
  }

  // --------------------------------------------------- size of a plan

  /** The slices planned for a located request have the size of the request, up to where they stop. */
  lemma {:induction false} PlanSizeOfLocated(spans: seq<Span>, size: int, start: int, end: int, a: nat, b: nat, n: nat)
    requires Tiling(spans, size) && start <= end <= size && Finds(spans, start, a) && Finds(spans, end, b)
    requires 0 < n && a + n <= b + 1
    ensures PlanSize(spans, start, end, a, n) == StopInSpan(spans[a + n - 1], end) - start
  {
    var i := a + n - 1;
    CutsOfSpan(spans, size, start, end, a, b, i);
    if n == 1 {
      assert PlanSize(spans, start, end, a, 0) == 0;
    } else {
      PlanSizeOfLocated(spans, size, start, end, a, b, n - 1);
      TilingOrdered(spans, size, i - 1, i);
      if i < b { TilingOrdered(spans, size, i, b); }
    }
  }

  lemma {:induction false} PlanSizeSame(spans: seq<Span>, start: int, from: int, end: int, a: nat, n: nat)
    requires a + n <= |spans| && forall i :: 0 <= i < |spans| ==> LoInSpan(spans[i], start) == LoInSpan(spans[i], from)
    ensures PlanSize(spans, start, end, a, n) == PlanSize(spans, from, end, a, n)
  {
    if n > 0 { PlanSizeSame(spans, start, from, end, a, n - 1); }
  }

  /** What is planned for a request: its bytes from the start of the span table on. */
  lemma {:induction false} PlanSizeOfRequest(L: Layer, start: nat, end: nat)
    requires L.IndexOk() && start <= end <= |L.uncomp| && EndFound(L, end)
    ensures var a, b := SpanFor(L, start), SpanFor(L, end);
            a <= b < |L.Spans()| && PlanSize(L.Spans(), start, end, a, b - a + 1) == end - ServedFrom(L, start)
  {
    var spans := L.Spans();
    assert Tiling(spans, |L.uncomp|) by { AcceptedTableTiles(L.z, |L.comp|, |L.uncomp|); }
    RequestIsServed(L, start, end);
    PlanSizeOfWhole(spans, |L.uncomp|, start, ServedFrom(L, start), end, SpanFor(L, start), SpanFor(L, end));
  }

  lemma {:induction false} PlanSizeOfWhole(spans: seq<Span>, size: int, start: int, from: int, end: int, a: nat, b: nat)
    requires Tiling(spans, size) && from <= end <= size && Finds(spans, from, a) && Finds(spans, end, b) && a <= b
    requires forall i :: 0 <= i < |spans| ==> LoInSpan(spans[i], start) == LoInSpan(spans[i], from)
    ensures PlanSize(spans, start, end, a, b - a + 1) == end - from
  {
    PlanSizeSame(spans, start, from, end, a, b - a + 1);
    PlanSizeOfLocated(spans, size, from, end, a, b, b - a + 1);
    assert StopInSpan(spans[b], end) == end;
  }

  /** Every slice of a plan goes to the place in the buffer where its first byte lies in the request. */
  lemma {:induction false} SlicesGoToTheirPlace(L: Layer, start: nat, end: nat, j: nat)
    requires L.IndexOk() && start <= end <= |L.uncomp| && EndFound(L, end)
    requires SpanFor(L, start) + j <= SpanFor(L, end) < |L.Spans()|
    ensures var si := PlanOf(L.z, L.Spans(), start, end);
            && si.spanStart == SpanFor(L, start) && si.spanEnd == SpanFor(L, end)
            && |si.spanIndexInBuf| == si.spanEnd - si.spanStart + 1
            && ServedFrom(L, start) + si.spanIndexInBuf[j] ==
                 if j == 0 then ServedFrom(L, start) else L.Spans()[si.spanStart + j].startUncomp
  {
    var spans, a, from := L.Spans(), SpanFor(L, start), ServedFrom(L, start);
    assert Tiling(spans, |L.uncomp|) by { AcceptedTableTiles(L.z, |L.comp|, |L.uncomp|); }
    RequestIsServed(L, start, end);
    PlanSizeSame(spans, start, from, end, a, j);
    if j > 0 { PlanSizeBefore(spans, |L.uncomp|, from, end, a, SpanFor(L, end), j); }
  }

  /** The slices before the `n`-th reach to the start of its span. */
  lemma {:induction false} PlanSizeBefore(spans: seq<Span>, size: int, start: int, end: int, a: nat, b: nat, n: nat)
    requires Tiling(spans, size) && start <= end <= size && Finds(spans, start, a) && Finds(spans, end, b)
    requires 0 < n && a + n <= b
    ensures PlanSize(spans, start, end, a, n) == spans[a + n].startUncomp - start
  {
    PlanSizeOfLocated(spans, size, start, end, a, b, n);
    TilingOrdered(spans, size, a + n - 1, b);
  }

  /** The table check does not look at the first start: a request for the whole of a gzip archive is planned
      with as many bytes as the archive has exactly when the first span starts at 0. */
  lemma {:induction false} WholeArchivePlannedIffFirstAtZero(L: Layer)
    requires L.IndexOk() && L.z.Gzip?
    ensures var a, b := SpanFor(L, 0), SpanFor(L, |L.uncomp|);
            && a <= b < |L.Spans()|
            && (PlanSize(L.Spans(), 0, |L.uncomp|, a, b - a + 1) == |L.uncomp| <==> L.Spans()[0].startUncomp == 0)
  {
    L.UncompInside(0);
    PlanSizeOfRequest(L, 0, |L.uncomp|);
  }

  /** Such a table: one checkpoint at offset 1 of an archive of 5 bytes is accepted. For the whole archive 4
      bytes are planned, and a request in front of the table gets a negative end. */
  lemma {:induction false} LateFirstSpanLosesBytes()
    ensures var z := Gzip([Checkpoint(10, 1, 0)]);
            var spans := SpansOf(z, z.MaxSpanID() + 1, 20, 5);
            && Monotonic(spans) && EndsWellFormed(spans, 20, 5)
            && PlanSize(spans, 0, 5, 0, 1) == 4 && HiInSpan(spans[0], 0) == -1
  {
    var z := Gzip([Checkpoint(10, 1, 0)]);
    var spans := SpansOf(z, z.MaxSpanID() + 1, 20, 5);
    assert PlanSize(spans, 0, 5, 0, 0) == 0;
  }
}
