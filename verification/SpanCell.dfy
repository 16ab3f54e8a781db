/**
 One span: its state machine, and what the code that runs under the span's lock does to the span's
 state and cache slot. Outcomes of foreign calls (network answers, cache, inflate) are parameters.
 */
module SpanCell {
  import opened Base
  import opened Layers

  datatype SpanState = Unrequested | Requested | Fetched | Uncompressed

  /** The transition table. */
  function ValidNext(from: SpanState): set<SpanState> {
    match from
    case Unrequested => {Requested}
    case Requested => {Unrequested, Fetched, Uncompressed}
    case Fetched => {Uncompressed}
    case Uncompressed => {}
  }

  /** A span's state together with its slot in the blob cache. */
  datatype Cell = Cell(state: SpanState, slot: Option<Bytes>)

  /** One answer of the remote reader. */
  datatype ReadOutcome = ReadError | Read(data: Bytes)

  /** The answers foreign code gives while one span is handled. */
  datatype SpanIO = SpanIO(answers: seq<ReadOutcome>, getOk: bool, inflateOk: bool, addOk: bool)

  predicate Verified(L: Layer, id: nat, b: Bytes)
    requires L.IndexOk()
  {
    id < |L.digests| && L.digestOf(b) == L.digests[id]
  }

  /** The first verified answer among the next `tries`; a read error or a short read gives up at once. */
  function FetchWithRetries(L: Layer, id: nat, answers: seq<ReadOutcome>, tries: nat): Option<Bytes>
    requires L.IndexOk() && id <= L.z.MaxSpanID() && tries <= |answers|
    decreases tries
  {
    if tries == 0 || answers[0].ReadError? || |answers[0].data| != |L.CompSpan(id)| then None
    else if Verified(L, id, answers[0].data) then Some(answers[0].data)
    else FetchWithRetries(L, id, answers[1..], tries - 1)
  }

  function UncompressSpan(L: Layer, id: nat, buf: Bytes, ok: bool): Option<Bytes>
    requires L.IndexOk() && id <= L.z.MaxSpanID()
  {
    var size := L.Spans()[id].endUncomp - L.Spans()[id].startUncomp;
    if size == 0 then Some([])
    else if !ok then None
    else L.ExtractDataFromBuffer(buf, size, L.Spans()[id].startUncomp, id)
  }

  /** fetchAndCacheSpan as one step: the new cell and the span content it returns. */
  function FetchAndCache(L: Layer, id: nat, c: Cell, uncompress: bool, io: SpanIO, tries: nat): (Cell, Option<Bytes>)
    requires L.IndexOk() && id <= L.z.MaxSpanID() && tries <= |io.answers|
  {
    if Requested !in ValidNext(c.state) then (c, None)
    else
      var failed := (c.(state := Unrequested), None);
      var fetched := FetchWithRetries(L, id, io.answers, tries);
      if fetched.None? then failed
      else
        var content := if uncompress then UncompressSpan(L, id, fetched.value, io.inflateOk) else fetched;
        if content.None? || !io.addOk then failed
        else (Cell(if uncompress then Uncompressed else Fetched, content), content)
  }

  /** getSpanContent as one step, returning the whole content of the span. */
  function GetSpan(L: Layer, id: nat, c: Cell, io: SpanIO, tries: nat): (Cell, Option<Bytes>)
    requires L.IndexOk() && id <= L.z.MaxSpanID() && tries <= |io.answers|
  {
    match c.state
    case Uncompressed => (c, if io.getOk then c.slot else None)
    case Fetched =>
      if !io.getOk || c.slot.None? then (c, None)
      else
        var content := UncompressSpan(L, id, c.slot.value, io.inflateOk);
        if content.None? || !io.addOk then (c, None) else (Cell(Uncompressed, content), content)
    case _ => FetchAndCache(L, id, c, true, io, tries)
  }

  // ------------------------------------------------------------- meaning

  /** The two forms of a span's content. */
  datatype Content = Content(comp: Bytes, uncomp: Bytes)

  function ContentOf(L: Layer, id: nat): Content
    requires L.IndexOk() && id <= L.z.MaxSpanID()
  {
    Content(L.CompSpan(id), L.UncompSpan(id))
  }

  /** What the cache slot of a span holds in each state. */
  predicate SlotOk(k: Content, c: Cell) {
    && (c.state == Fetched ==> c.slot == Some(k.comp))
    && (c.state == Uncompressed ==> c.slot == Some(k.uncomp))
  }

  /** What holds of a span whose lock is free. */
  predicate CellOk(k: Content, c: Cell) {
    c.state != Requested && SlotOk(k, c)
  }

  /** An answer as long as the span; only such an answer is compared with the span's digest. */
  predicate FullRead(L: Layer, id: nat, a: ReadOutcome)
    requires L.IndexOk() && id <= L.z.MaxSpanID()
  {
    a.Read? && |a.data| == |L.CompSpan(id)|
  }

  /** Answer `k` is `b` and has the span's digest; every answer before it is as long and has another digest. */
  predicate VerifiedAt(L: Layer, id: nat, answers: seq<ReadOutcome>, k: nat, b: Bytes)
    requires L.IndexOk() && id <= L.z.MaxSpanID()
  {
    && k < |answers| && id < |L.digests| && answers[k] == Read(b)
    && (forall j {:trigger answers[j]} :: 0 <= j <= k ==> FullRead(L, id, answers[j]))
    && (forall j {:trigger answers[j]} :: 0 <= j < k ==> L.digestOf(answers[j].data) != L.digests[id])
    && L.digestOf(b) == L.digests[id]
  }

  /** Among the next `tries` answers one is verified, and it is `b`; only mismatches come before it. */
  predicate FirstVerified(L: Layer, id: nat, answers: seq<ReadOutcome>, tries: nat, b: Bytes)
    requires L.IndexOk() && id <= L.z.MaxSpanID()
  {
    exists k: nat :: k < tries && VerifiedAt(L, id, answers, k, b)
  }

  lemma {:induction false} VerifiedLater(L: Layer, id: nat, answers: seq<ReadOutcome>, k: nat, b: Bytes)
    requires L.IndexOk() && id <= L.z.MaxSpanID() && answers != []
    requires FullRead(L, id, answers[0]) && !Verified(L, id, answers[0].data)
    ensures VerifiedAt(L, id, answers[1..], k, b) <==> VerifiedAt(L, id, answers, k + 1, b)
  {
    var rest := answers[1..];
    assert forall j {:trigger rest[j]} :: 0 <= j < |rest| ==> rest[j] == answers[j + 1];
    if VerifiedAt(L, id, rest, k, b) {
      forall j | 0 <= j <= k + 1
        ensures FullRead(L, id, answers[j]) && (j <= k ==> L.digestOf(answers[j].data) != L.digests[id])
      {
        if j > 0 { assert answers[j] == rest[j - 1]; }
      }
    }
  }

  /** The fetch loop returns an answer exactly when it is the first verified one within the tries and only
      mismatches of the right length come before it. */
  lemma {:induction false} FetchReturnsFirstVerified(L: Layer, id: nat, answers: seq<ReadOutcome>, tries: nat, b: Bytes)
    requires L.IndexOk() && id <= L.z.MaxSpanID() && tries <= |answers|
    ensures FetchWithRetries(L, id, answers, tries) == Some(b) <==> FirstVerified(L, id, answers, tries, b)
    decreases tries
  {
    if tries > 0 && FullRead(L, id, answers[0]) {
      if Verified(L, id, answers[0].data) {
        assert VerifiedAt(L, id, answers, 0, answers[0].data);
      } else {
        FetchReturnsFirstVerified(L, id, answers[1..], tries - 1, b);
        LaterWithinTries(L, id, answers, tries, b);
      }
    }
  }

  lemma {:induction false} LaterWithinTries(L: Layer, id: nat, answers: seq<ReadOutcome>, tries: nat, b: Bytes)
    requires L.IndexOk() && id <= L.z.MaxSpanID() && answers != [] && tries > 0
    requires FullRead(L, id, answers[0]) && !Verified(L, id, answers[0].data)
    ensures FirstVerified(L, id, answers[1..], tries - 1, b) <==> FirstVerified(L, id, answers, tries, b)
  {
    if FirstVerified(L, id, answers[1..], tries - 1, b) {
      var k: nat :| k < tries - 1 && VerifiedAt(L, id, answers[1..], k, b);
      VerifiedLater(L, id, answers, k, b);
      assert VerifiedAt(L, id, answers, k + 1, b);
    }
    if FirstVerified(L, id, answers, tries, b) {
      var k: nat :| k < tries && VerifiedAt(L, id, answers, k, b);
      VerifiedLater(L, id, answers, k - 1, b);
    }
  }

  /** Only the span's own compressed bytes come out of the fetch loop. */
  lemma {:induction false} FetchedBytesAreTheSpan(L: Layer, id: nat, answers: seq<ReadOutcome>, tries: nat)
    requires L.Sound() && id <= L.z.MaxSpanID() && tries <= |answers|
    ensures FetchWithRetries(L, id, answers, tries) ==
      if FirstVerified(L, id, answers, tries, L.CompSpan(id)) then Some(L.CompSpan(id)) else None
  {
    var r := FetchWithRetries(L, id, answers, tries);
    FetchReturnsFirstVerified(L, id, answers, tries, L.CompSpan(id));
    if r.Some? {
      FetchReturnsFirstVerified(L, id, answers, tries, r.value);
      var k: nat :| k < tries && VerifiedAt(L, id, answers, k, r.value);
      assert FullRead(L, id, answers[k]);
    }
  }

  /** A span decompresses to its stretch of the archive. */
  lemma {:induction false} UncompressedSpanIsArchive(L: Layer, id: nat, ok: bool)
    requires L.Sound() && id <= L.z.MaxSpanID()
    ensures UncompressSpan(L, id, L.CompSpan(id), ok) ==
      if ok || L.UncompSpan(id) == [] then Some(L.UncompSpan(id)) else None
  {
    L.UncompInside(id);
    var s := L.Spans()[id];
    assert L.UncompSpan(id) == L.uncomp[s.startUncomp..s.endUncomp];
    if s.startUncomp < s.endUncomp {
      L.ExtractYieldsArchive(id, id, s.startUncomp, s.endUncomp - s.startUncomp);
      assert ok ==> UncompressSpan(L, id, L.CompSpan(id), ok) == Some(L.UncompSpan(id));
    } else {
      assert L.UncompSpan(id) == [];
    }
  }

  /** Inflating the span's compressed bytes works; an empty span needs no inflating. */
  predicate Inflates(L: Layer, id: nat, io: SpanIO)
    requires L.IndexOk() && id <= L.z.MaxSpanID()
  {
    io.inflateOk || L.UncompSpan(id) == []
  }

  /** The span's bytes arrive within the tries, after mismatches only, and nothing else fails. */
  predicate GoodIO(L: Layer, id: nat, io: SpanIO, tries: nat)
    requires L.IndexOk() && id <= L.z.MaxSpanID()
  {
    io.getOk && io.inflateOk && io.addOk && FirstVerified(L, id, io.answers, tries, L.CompSpan(id))
  }

  /** Fetching keeps the cell meaningful and returns only the span's content. It works exactly when the span
      is not requested yet, its bytes arrive within the tries after mismatches only, and inflating and
      caching work; otherwise the cell stays as it was. */
  lemma {:induction false} FetchAndCacheKeepsCell(L: Layer, id: nat, c: Cell, uncompress: bool, io: SpanIO, tries: nat)
    requires L.Sound() && id <= L.z.MaxSpanID() && tries <= |io.answers| && CellOk(ContentOf(L, id), c)
    ensures var (c', r) := FetchAndCache(L, id, c, uncompress, io, tries);
            && CellOk(ContentOf(L, id), c')
            && (r.Some? ==> r.value == if uncompress then L.UncompSpan(id) else L.CompSpan(id))
            && (r.Some? ==> c'.state == if uncompress then Uncompressed else Fetched)
            && (r.None? ==> c' == c)
            && (r.Some? <==> && c.state == Unrequested && FirstVerified(L, id, io.answers, tries, L.CompSpan(id))
                             && (uncompress ==> Inflates(L, id, io)) && io.addOk)
  {
    FetchedBytesAreTheSpan(L, id, io.answers, tries);
    UncompressedSpanIsArchive(L, id, io.inflateOk);
  }

  /** Reading keeps the cell meaningful and returns only the archive's bytes. From the cache it works exactly
      when the cache does, for a compressed span when inflating and caching work too, and otherwise as
      fetching does; when it fails, or the span is uncompressed already, the cell stays as it was. */
  lemma {:induction false} GetSpanKeepsCell(L: Layer, id: nat, c: Cell, io: SpanIO, tries: nat)
    requires L.Sound() && id <= L.z.MaxSpanID() && tries <= |io.answers| && CellOk(ContentOf(L, id), c)
    ensures var (c', r) := GetSpan(L, id, c, io, tries);
            && CellOk(ContentOf(L, id), c')
            && (r.Some? ==> r.value == L.UncompSpan(id) && c'.state == Uncompressed)
            && (r.None? || c.state == Uncompressed ==> c' == c)
            && (r.Some? <==>
                  if c.state == Uncompressed then io.getOk
                  else && Inflates(L, id, io) && io.addOk
                       && (if c.state == Fetched then io.getOk
                           else FirstVerified(L, id, io.answers, tries, L.CompSpan(id))))
  {
    UncompressedSpanIsArchive(L, id, io.inflateOk);
    FetchAndCacheKeepsCell(L, id, c, true, io, tries);
  }

  // --------------------------------------------------------- resolveSpan

  /** ResolveSpan as one step: the new cell and whether it returned without error. */
  function Resolve(L: Layer, id: nat, c: Cell, io: SpanIO, tries: nat): (Cell, bool)
    requires L.IndexOk() && id <= L.z.MaxSpanID() && tries <= |io.answers|
  {
    if c.state == Uncompressed then (c, true)
    else
      var (c', r) := FetchAndCache(L, id, c, true, io, tries);
      (c', r.Some?)
  }

  /** ResolveSpan is documented to leave the span uncompressed; on a good environment it does so
      exactly when the span has not been fetched in compressed form before. */
  lemma {:induction false} ResolveWorksUnlessFetched(L: Layer, id: nat, c: Cell, io: SpanIO, tries: nat)
    requires L.Sound() && id <= L.z.MaxSpanID() && tries <= |io.answers| && CellOk(ContentOf(L, id), c)
    requires GoodIO(L, id, io, tries)
    ensures var (c', ok) := Resolve(L, id, c, io, tries);
            && (ok <==> c.state != Fetched)
            && (c'.state == Uncompressed <==> c.state != Fetched)
            && CellOk(ContentOf(L, id), c')
  {
    FetchAndCacheKeepsCell(L, id, c, true, io, tries);
  }

  /** The failing family: a background-fetched span is left as it was. */
  lemma {:induction false} ResolveRejectsFetched(L: Layer, id: nat, slot: Option<Bytes>, io: SpanIO, tries: nat)
    requires L.IndexOk() && id <= L.z.MaxSpanID() && tries <= |io.answers|
    ensures Resolve(L, id, Cell(Fetched, slot), io, tries) == (Cell(Fetched, slot), false)
  {
  }
}
