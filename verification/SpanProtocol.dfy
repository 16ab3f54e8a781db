/**
 Any number of goroutines running FetchSingleSpan, ResolveSpan and getSpanContent on the spans of one
 layer, interleaved at every access to a span's state, lock or cache slot. State checks made before
 taking the lock, failing fetches, digest mismatches, inflate and cache failures are all steps.
 */
module SpanProtocol {
  import opened Base
  import opened Layers
  import opened SpanCell

  type Tid = nat

  datatype Op = FetchOp | ResolveOp | ReadOp(lo: nat, hi: nat)

  datatype Outcome = Ok | Data(b: Bytes) | Error

  /** Where a goroutine stands; from `Locked` to `Unlock` it holds the span's lock. */
  datatype Pc =
    | Start                                   // state check without the lock
    | WaitLock
    | ReadUnlocked                            // cache read after the lock-free check saw `Uncompressed`
    | Locked                                  // state check under the lock
    | ReadLocked                              // cache read after the second check saw `Uncompressed`
    | GetCompressed                           // cache read of a `Fetched` span
    | InflateCached(buf: Bytes)
    | StoreCached(buf: Bytes)
    | MarkCached(buf: Bytes)
    | Request                                 // setState(requested)
    | Fetch
    | InflateFetched(buf: Bytes)
    | StoreFetched(buf: Bytes, target: SpanState)
    | MarkFetched(buf: Bytes, target: SpanState)
    | Revert                                  // the deferred setState(unrequested)
    | Unlock(res: Outcome)
    | Finished(res: Outcome)
  {
    predicate Holds() {
      !Start? && !WaitLock? && !ReadUnlocked? && !Finished?
    }
  }

  datatype Thread = Thread(sid: nat, op: Op, pc: Pc)

  datatype SpanSt = SpanSt(cell: Cell, lock: Option<Tid>)

  datatype Sys = Sys(spans: seq<SpanSt>, threads: map<Tid, Thread>)

  /** A goroutine starts, or the scheduler lets one take its next step with the given foreign answers. */
  datatype Event = Spawn(tid: Tid, sid: nat, op: Op) | Sched(who: Tid, io: SpanIO)

  function Init(L: Layer): Sys
    requires L.IndexOk()
  {
    Sys(seq(|L.Spans()|, _ => SpanSt(Cell(Unrequested, None), None)), map[])
  }

  /** getSpanContent is only called for slices of its span. */
  predicate OpOk(L: Layer, sid: nat, op: Op)
    requires L.IndexOk() && sid <= L.z.MaxSpanID()
  {
    op.ReadOp? ==> op.lo <= op.hi <= |L.UncompSpan(sid)|
  }

  function Slice(b: Bytes, op: Op): Outcome {
    if op.ReadOp? then (if op.lo <= op.hi <= |b| then Data(b[op.lo..op.hi]) else Error) else Ok
  }

  /** Next program counter after a state check; `locked` tells which of the two checks. */
  function AfterCheck(state: SpanState, op: Op, locked: bool): Pc {
    var done := if locked then Unlock(Ok) else Finished(Ok);
    match op
    case FetchOp => if state != Unrequested then done else if locked then Request else WaitLock
    case ResolveOp => if state == Uncompressed then done else if locked then Request else WaitLock
    case ReadOp(_, _) =>
      if state == Uncompressed then (if locked then ReadLocked else ReadUnlocked)
      else if !locked then WaitLock
      else if state == Fetched then GetCompressed
      else Request
  }

  function ReadSlot(c: Cell, op: Op, io: SpanIO): Outcome {
    if io.getOk && c.slot.Some? then Slice(c.slot.value, op) else Error
  }

  /** One step of goroutine `t` on its span; a goroutine waiting for a taken lock does not move. */
  function ThreadStep(L: Layer, t: Tid, th: Thread, sp: SpanSt, io: SpanIO): (SpanSt, Pc)
    requires L.IndexOk() && th.sid <= L.z.MaxSpanID()
  {
    match th.pc
    case InflateCached(buf) =>
      var r := UncompressSpan(L, th.sid, buf, io.inflateOk);
      (sp, if r.Some? then StoreCached(r.value) else Unlock(Error))
    case Fetch =>
      var r := FetchWithRetries(L, th.sid, io.answers, |io.answers|);
      (sp, if r.None? then Revert
           else if th.op.FetchOp? then StoreFetched(r.value, Fetched)
           else InflateFetched(r.value))
    case InflateFetched(buf) =>
      var r := UncompressSpan(L, th.sid, buf, io.inflateOk);
      (sp, if r.Some? then StoreFetched(r.value, Uncompressed) else Revert)
    case _ => LocalStep(t, th, sp, io)
  }

  /** The steps that neither fetch nor inflate. */
  function LocalStep(t: Tid, th: Thread, sp: SpanSt, io: SpanIO): (SpanSt, Pc)
    requires !th.pc.InflateCached? && !th.pc.Fetch? && !th.pc.InflateFetched?
  {
    var c := sp.cell;
    match th.pc
    case Start => (sp, AfterCheck(c.state, th.op, false))
    case WaitLock => if sp.lock.None? then (sp.(lock := Some(t)), Locked) else (sp, WaitLock)
    case ReadUnlocked => (sp, Finished(ReadSlot(c, th.op, io)))
    case Locked => (sp, AfterCheck(c.state, th.op, true))
    case ReadLocked => (sp, Unlock(ReadSlot(c, th.op, io)))
    case GetCompressed => (sp, if io.getOk && c.slot.Some? then InflateCached(c.slot.value) else Unlock(Error))
    case StoreCached(buf) =>
      if io.addOk then (sp.(cell := c.(slot := Some(buf))), MarkCached(buf)) else (sp, Unlock(Error))
    case MarkCached(buf) =>
      if Uncompressed in ValidNext(c.state) then (sp.(cell := c.(state := Uncompressed)), Unlock(Slice(buf, th.op)))
      else (sp, Unlock(Error))
    case Request =>
      if Requested in ValidNext(c.state) then (sp.(cell := c.(state := Requested)), Fetch) else (sp, Unlock(Error))
    case StoreFetched(buf, target) =>
      if io.addOk then (sp.(cell := c.(slot := Some(buf))), MarkFetched(buf, target)) else (sp, Revert)
    case MarkFetched(buf, target) =>
      if target in ValidNext(c.state) then (sp.(cell := c.(state := target)), Unlock(Slice(buf, th.op)))
      else (sp, Revert)
    case Revert =>
      (if c.state == Requested then sp.(cell := c.(state := Unrequested)) else sp, Unlock(Error))
    case Unlock(res) => (sp.(lock := None), Finished(res))
    case Finished(res) => (sp, Finished(res))
  }

  function Step(L: Layer, s: Sys, e: Event): Sys
    requires L.IndexOk() && Shaped(L, s)
  {
    match e
    case Spawn(t, sid, op) =>
      if t in s.threads || L.z.MaxSpanID() < sid || !OpOk(L, sid, op) then s
      else s.(threads := s.threads[t := Thread(sid, op, Start)])
    case Sched(t, io) =>
      if t !in s.threads then s
      else
        var th := s.threads[t];
        var (sp', pc') := ThreadStep(L, t, th, s.spans[th.sid], io);
        Sys(s.spans[th.sid := sp'], s.threads[t := th.(pc := pc')])
  }

  predicate Shaped(L: Layer, s: Sys)
    requires L.IndexOk()
  {
    && |s.spans| == L.z.MaxSpanID() + 1
    && forall t | t in s.threads :: s.threads[t].sid <= L.z.MaxSpanID() && OpOk(L, s.threads[t].sid, s.threads[t].op)
  }

  /** The state after a list of events. */
  function Exec(L: Layer, s: Sys, es: seq<Event>): (r: Sys)
    requires L.IndexOk() && Shaped(L, s)
    ensures Shaped(L, r)
    decreases |es|
  {
    if es == [] then s else Step(L, Exec(L, s, es[..|es| - 1]), es[|es| - 1])
  }

  // ----------------------------------------------------------- invariant

  predicate ResultOk(k: Content, op: Op, res: Outcome) {
    res.Data? ==> res == Slice(k.uncomp, op)
  }

  function TargetOf(op: Op): SpanState {
    if op.FetchOp? then Fetched else Uncompressed
  }

  function FormOf(k: Content, target: SpanState): Bytes {
    if target == Uncompressed then k.uncomp else k.comp
  }

  /** What a goroutine may rely on at each program counter. */
  predicate AtPc(k: Content, th: Thread, c: Cell) {
    match th.pc
    case Start => true
    case WaitLock => true
    case ReadUnlocked => c.state == Uncompressed && SlotOk(k, c)
    case Locked => CellOk(k, c)
    case ReadLocked => c.state == Uncompressed && SlotOk(k, c)
    case GetCompressed => c.state == Fetched && SlotOk(k, c)
    case InflateCached(buf) => c.state == Fetched && SlotOk(k, c) && buf == k.comp
    case StoreCached(buf) => c.state == Fetched && SlotOk(k, c) && buf == k.uncomp
    case MarkCached(buf) => c.state == Fetched && c.slot == Some(k.uncomp) && buf == k.uncomp
    case Request => CellOk(k, c)
    case Fetch => c.state == Requested
    case InflateFetched(buf) => c.state == Requested && !th.op.FetchOp? && buf == k.comp
    case StoreFetched(buf, target) => c.state == Requested && target == TargetOf(th.op) && buf == FormOf(k, target)
    case MarkFetched(buf, target) =>
      c.state == Requested && target == TargetOf(th.op) && buf == FormOf(k, target) && c.slot == Some(buf)
    case Revert => c.state == Requested
    case Unlock(res) => CellOk(k, c) && ResultOk(k, th.op, res)
    case Finished(res) => ResultOk(k, th.op, res)
  }

  predicate ThreadOk(k: Content, t: Tid, th: Thread, sp: SpanSt) {
    AtPc(k, th, sp.cell) && (th.pc.Holds() ==> sp.lock == Some(t))
  }

  /** What is true of a span whoever looks at it. */
  predicate SpanMeaningful(k: Content, sp: SpanSt) {
    && (sp.lock.None? ==> CellOk(k, sp.cell))
    && (sp.cell.state == Uncompressed ==> SlotOk(k, sp.cell))
  }

  /** A free span is settled; a locked span is locked by a goroutine that will unlock it. */
  predicate SpanOk(L: Layer, s: Sys, i: nat)
    requires L.IndexOk() && Shaped(L, s) && i < |s.spans|
  {
    && SpanMeaningful(ContentOf(L, i), s.spans[i])
    && (s.spans[i].lock.Some? ==>
          var t := s.spans[i].lock.value;
          t in s.threads && s.threads[t].sid == i && s.threads[t].pc.Holds())
  }

  predicate Inv(L: Layer, s: Sys)
    requires L.IndexOk()
  {
    && Shaped(L, s)
    && (forall i: nat {:trigger SpanOk(L, s, i)} :: i < |s.spans| ==> SpanOk(L, s, i))
    && (forall t {:trigger s.threads[t]} :: t in s.threads ==>
          ThreadOk(ContentOf(L, s.threads[t].sid), t, s.threads[t], s.spans[s.threads[t].sid]))
  }

  lemma {:induction false} InitInv(L: Layer)
    requires L.IndexOk()
    ensures Inv(L, Init(L))
  {
    forall i: nat | i < |Init(L).spans| ensures SpanOk(L, Init(L), i) { }
  }

  /** Steps that only look at the state. */
  lemma {:induction false} CheckingStepStaysOk(k: Content, t: Tid, th: Thread, sp: SpanSt, io: SpanIO)
    requires th.pc.Start? || th.pc.Locked?
    requires ThreadOk(k, t, th, sp) && SpanMeaningful(k, sp)
    ensures var (sp', pc') := LocalStep(t, th, sp, io); ThreadOk(k, t, th.(pc := pc'), sp') && sp' == sp
  {
  }

  /** Steps that only look at the cache slot. */
  lemma {:induction false} ReadingStepStaysOk(k: Content, t: Tid, th: Thread, sp: SpanSt, io: SpanIO)
    requires th.pc.ReadUnlocked? || th.pc.ReadLocked? || th.pc.GetCompressed?
    requires ThreadOk(k, t, th, sp) && SpanMeaningful(k, sp)
    ensures var (sp', pc') := LocalStep(t, th, sp, io); ThreadOk(k, t, th.(pc := pc'), sp') && sp' == sp
  {
  }

  /** Steps that only look, or take or release the lock. */
  lemma {:induction false} LookingStepStaysOk(k: Content, t: Tid, th: Thread, sp: SpanSt, io: SpanIO)
    requires !th.pc.InflateCached? && !th.pc.InflateFetched? && !th.pc.Fetch? && !Writes(th.pc)
    requires ThreadOk(k, t, th, sp) && SpanMeaningful(k, sp)
    ensures var (sp', pc') := LocalStep(t, th, sp, io);
            ThreadOk(k, t, th.(pc := pc'), sp') && SpanMeaningful(k, sp')
  {
    if th.pc.Start? || th.pc.Locked? {
      CheckingStepStaysOk(k, t, th, sp, io);
    } else if th.pc.ReadUnlocked? || th.pc.ReadLocked? || th.pc.GetCompressed? {
      ReadingStepStaysOk(k, t, th, sp, io);
    }
  }

  predicate Writes(pc: Pc) {
    pc.StoreCached? || pc.MarkCached? || pc.Request? || pc.StoreFetched? || pc.MarkFetched? || pc.Revert?
  }

  /** Steps that change the state or the cache slot. */
  lemma {:induction false} WritingStepStaysOk(k: Content, t: Tid, th: Thread, sp: SpanSt, io: SpanIO)
    requires Writes(th.pc)
    requires ThreadOk(k, t, th, sp) && SpanMeaningful(k, sp)
    ensures var (sp', pc') := LocalStep(t, th, sp, io);
            ThreadOk(k, t, th.(pc := pc'), sp') && SpanMeaningful(k, sp')
  {
  }

  /** A step that fetches or inflates keeps the moving goroutine correct. */
  lemma {:induction false} ForeignStepStaysOk(L: Layer, t: Tid, th: Thread, sp: SpanSt, io: SpanIO)
    requires L.Sound() && th.sid <= L.z.MaxSpanID() && ThreadOk(ContentOf(L, th.sid), t, th, sp)
    requires th.pc.InflateCached? || th.pc.InflateFetched? || th.pc.Fetch?
    ensures var (sp', pc') := ThreadStep(L, t, th, sp, io);
            ThreadOk(ContentOf(L, th.sid), t, th.(pc := pc'), sp') && sp' == sp
  {
    UncompressedSpanIsArchive(L, th.sid, io.inflateOk);
    FetchedBytesAreTheSpan(L, th.sid, io.answers, |io.answers|);
  }

  /** The goroutine that moves stays correct, and so does its span. */
  lemma {:induction false} MoverStaysOk(L: Layer, t: Tid, th: Thread, sp: SpanSt, io: SpanIO)
    requires L.Sound() && th.sid <= L.z.MaxSpanID()
    requires ThreadOk(ContentOf(L, th.sid), t, th, sp) && SpanMeaningful(ContentOf(L, th.sid), sp)
    ensures var (sp', pc') := ThreadStep(L, t, th, sp, io);
            && ThreadOk(ContentOf(L, th.sid), t, th.(pc := pc'), sp')
            && SpanMeaningful(ContentOf(L, th.sid), sp')
  {
    if th.pc.InflateCached? || th.pc.InflateFetched? || th.pc.Fetch? {
      ForeignStepStaysOk(L, t, th, sp, io);
    } else if Writes(th.pc) {
      WritingStepStaysOk(ContentOf(L, th.sid), t, th, sp, io);
    } else {
      LookingStepStaysOk(ContentOf(L, th.sid), t, th, sp, io);
    }
  }

  /** Without the lock a goroutine changes nothing but a free lock, and an uncompressed cell never changes. */
  lemma {:induction false} LocalStepIsPolite(k: Content, t: Tid, th: Thread, sp: SpanSt, io: SpanIO)
    requires !th.pc.InflateCached? && !th.pc.InflateFetched? && !th.pc.Fetch?
    requires ThreadOk(k, t, th, sp)
    ensures var (sp', pc') := LocalStep(t, th, sp, io); Polite(t, th.pc, sp, sp', pc')
  {
  }

  predicate Polite(t: Tid, pc: Pc, sp: SpanSt, sp': SpanSt, pc': Pc) {
    && (!pc.Holds() ==> sp'.cell == sp.cell)
    && (sp.cell.state == Uncompressed ==> sp'.cell == sp.cell)
    && (sp'.lock == sp.lock || (sp.lock.None? && sp'.lock == Some(t)) || (sp.lock == Some(t) && sp'.lock.None?))
    && (sp'.lock == Some(t) && (pc.Holds() || sp.lock.None?) ==> pc'.Holds())
  }

  lemma {:induction false} StepIsPolite(L: Layer, t: Tid, th: Thread, sp: SpanSt, io: SpanIO)
    requires L.IndexOk() && th.sid <= L.z.MaxSpanID() && ThreadOk(ContentOf(L, th.sid), t, th, sp)
    ensures var (sp', pc') := ThreadStep(L, t, th, sp, io); Polite(t, th.pc, sp, sp', pc')
  {
    if !th.pc.InflateCached? && !th.pc.InflateFetched? && !th.pc.Fetch? {
      LocalStepIsPolite(ContentOf(L, th.sid), t, th, sp, io);
    }
  }

  /** Another goroutine on the same span is not disturbed. */
  lemma {:induction false} BystanderStaysOk(k: Content, t: Tid, th: Thread, u: Tid, uh: Thread, sp: SpanSt,
        sp': SpanSt, pc': Pc)
    requires t != u && ThreadOk(k, t, th, sp) && ThreadOk(k, u, uh, sp) && Polite(t, th.pc, sp, sp', pc')
    ensures ThreadOk(k, u, uh, sp')
  {
  }

  lemma {:induction false} SchedKeepsThread(L: Layer, s: Sys, t: Tid, io: SpanIO, u: Tid)
    requires L.Sound() && Inv(L, s) && t in s.threads && u in s.threads
    ensures var s' := Step(L, s, Sched(t, io));
            && u in s'.threads && s'.threads[u].sid == s.threads[u].sid < |s'.spans|
            && ThreadOk(ContentOf(L, s'.threads[u].sid), u, s'.threads[u], s'.spans[s'.threads[u].sid])
  {
    var th, sp := s.threads[t], s.spans[s.threads[t].sid];
    assert SpanOk(L, s, th.sid);
    if u == t {
      MoverStaysOk(L, t, th, sp, io);
    } else if s.threads[u].sid == th.sid {
      StepIsPolite(L, t, th, sp, io);
      var (sp', pc') := ThreadStep(L, t, th, sp, io);
      BystanderStaysOk(ContentOf(L, th.sid), t, th, u, s.threads[u], sp, sp', pc');
    }
  }

  lemma {:induction false} SchedKeepsSpan(L: Layer, s: Sys, t: Tid, io: SpanIO, i: nat)
    requires L.Sound() && Inv(L, s) && t in s.threads && i < |s.spans|
    ensures Shaped(L, Step(L, s, Sched(t, io))) && i < |Step(L, s, Sched(t, io)).spans|
    ensures SpanOk(L, Step(L, s, Sched(t, io)), i)
  {
    var th, sp := s.threads[t], s.spans[s.threads[t].sid];
    assert SpanOk(L, s, i);
    assert SpanOk(L, s, th.sid);
    MoverStaysOk(L, t, th, sp, io);
    StepIsPolite(L, t, th, sp, io);
  }

  lemma {:induction false} SchedKeepsInv(L: Layer, s: Sys, t: Tid, io: SpanIO)
    requires L.Sound() && Inv(L, s)
    ensures Inv(L, Step(L, s, Sched(t, io)))
  {
    if t in s.threads {
      var s' := Step(L, s, Sched(t, io));
      forall u | u in s'.threads
        ensures ThreadOk(ContentOf(L, s'.threads[u].sid), u, s'.threads[u], s'.spans[s'.threads[u].sid])
      {
        SchedKeepsThread(L, s, t, io, u);
      }
      forall i: nat | i < |s'.spans| ensures SpanOk(L, s', i) {
        SchedKeepsSpan(L, s, t, io, i);
      }
    }
  }

  lemma {:induction false} SpawnKeepsInv(L: Layer, s: Sys, t: Tid, sid: nat, op: Op)
    requires L.Sound() && Inv(L, s)
    ensures Inv(L, Step(L, s, Spawn(t, sid, op)))
  {
    var s' := Step(L, s, Spawn(t, sid, op));
    forall i: nat | i < |s'.spans| ensures SpanOk(L, s', i) {
      assert SpanOk(L, s, i);
    }
  }

  lemma {:induction false} StepKeepsInv(L: Layer, s: Sys, e: Event)
    requires L.Sound() && Inv(L, s)
    ensures Inv(L, Step(L, s, e))
  {
    match e
    case Spawn(t, sid, op) => SpawnKeepsInv(L, s, t, sid, op);
    case Sched(t, io) => SchedKeepsInv(L, s, t, io);
  }

  lemma {:induction false} EveryRunKeepsInv(L: Layer, es: seq<Event>)
    requires L.Sound()
    ensures Inv(L, Exec(L, Init(L), es))
    decreases |es|
  {
    if es == [] {
      InitInv(L);
    } else {
      EveryRunKeepsInv(L, es[..|es| - 1]);
      StepKeepsInv(L, Exec(L, Init(L), es[..|es| - 1]), es[|es| - 1]);
    }
  }

  // ------------------------------------------------------- main theorems

  /** In every run, a span whose lock is free is not `Requested`; `Fetched` means the cache holds its
      compressed bytes and `Uncompressed` that it holds exactly its part of the archive. */
  lemma {:induction false} FreeSpansAreSettled(L: Layer, es: seq<Event>, i: nat)
    requires L.Sound() && i <= L.z.MaxSpanID()
    ensures var sp := Exec(L, Init(L), es).spans[i];
            sp.lock.None? ==>
              && sp.cell.state != Requested
              && (sp.cell.state == Fetched ==> sp.cell.slot == Some(L.CompSpan(i)))
              && (sp.cell.state == Uncompressed ==> sp.cell.slot == Some(L.UncompSpan(i)))
  {
    EveryRunKeepsInv(L, es);
    assert SpanOk(L, Exec(L, Init(L), es), i);
  }

  /** In every run, whatever a read returns is exactly the requested part of the archive. */
  lemma {:induction false} EveryReadIsTheArchive(L: Layer, es: seq<Event>, t: Tid)
    requires L.Sound() && t in Exec(L, Init(L), es).threads
    requires var th := Exec(L, Init(L), es).threads[t]; th.op.ReadOp? && th.pc.Finished? && th.pc.res.Data?
    ensures var th := Exec(L, Init(L), es).threads[t];
            th.pc.res.b == L.UncompSpan(th.sid)[th.op.lo..th.op.hi]
  {
    EveryRunKeepsInv(L, es);
    var th := Exec(L, Init(L), es).threads[t];
    assert ThreadOk(ContentOf(L, th.sid), t, th, Exec(L, Init(L), es).spans[th.sid]);
  }

  lemma {:induction false} UncompressedCellStays(L: Layer, s: Sys, e: Event, i: nat)
    requires L.Sound() && Inv(L, s) && i < |s.spans| && s.spans[i].cell.state == Uncompressed
    ensures Step(L, s, e).spans[i].cell == s.spans[i].cell
  {
    if e.Sched? && e.who in s.threads {
      var th := s.threads[e.who];
      StepIsPolite(L, e.who, th, s.spans[th.sid], e.io);
    }
  }

  lemma {:induction false} ExecSnoc(L: Layer, s: Sys, es: seq<Event>, e: Event)
    requires L.IndexOk() && Shaped(L, s)
    ensures Exec(L, s, es + [e]) == Step(L, Exec(L, s, es), e)
  {
    assert (es + [e])[..|es|] == es;
  }

  /** Once a span is uncompressed, its state and cache slot never change again. */
  lemma {:induction false} UncompressedIsForever(L: Layer, es: seq<Event>, more: seq<Event>, i: nat)
    requires L.Sound() && i <= L.z.MaxSpanID()
    requires Exec(L, Init(L), es).spans[i].cell.state == Uncompressed
    ensures Exec(L, Init(L), es + more).spans[i].cell == Cell(Uncompressed, Some(L.UncompSpan(i)))
    decreases |more|
  {
    if more == [] {
      assert es + more == es;
      EveryRunKeepsInv(L, es);
      assert SpanOk(L, Exec(L, Init(L), es), i);
    } else {
      var before, e := more[..|more| - 1], more[|more| - 1];
      UncompressedIsForever(L, es, before, i);
      EveryRunKeepsInv(L, es + before);
      UncompressedCellStays(L, Exec(L, Init(L), es + before), e, i);
      assert es + more == es + before + [e];
      ExecSnoc(L, Init(L), es + before, e);
    }
  }

  lemma {:induction false} StepFollowsTable(L: Layer, t: Tid, th: Thread, sp: SpanSt, io: SpanIO)
    requires L.IndexOk() && th.sid <= L.z.MaxSpanID()
    ensures var now := ThreadStep(L, t, th, sp, io).0.cell.state;
            now == sp.cell.state || now in ValidNext(sp.cell.state)
  {
  }

  /** In every run each change of a span's state is one the transition table allows, and the table has
      no way out of the uncompressed state only. */
  lemma {:induction false} EveryTransitionIsInTheTable(L: Layer, es: seq<Event>, e: Event, i: nat)
    requires L.Sound() && i <= L.z.MaxSpanID()
    ensures var was, now := Exec(L, Init(L), es).spans[i].cell.state, Exec(L, Init(L), es + [e]).spans[i].cell.state;
            (now == was || now in ValidNext(was)) && (ValidNext(was) == {} <==> was == Uncompressed)
  {
    var s := Exec(L, Init(L), es);
    ExecSnoc(L, Init(L), es, e);
    if e.Sched? && e.who in s.threads {
      StepFollowsTable(L, e.who, s.threads[e.who], s.spans[s.threads[e.who].sid], e.io);
    }
    assert Requested in ValidNext(Unrequested) && Fetched in ValidNext(Requested) && Uncompressed in ValidNext(Fetched);
  }

  /** No two goroutines are between lock and unlock of the same span. */
  lemma {:induction false} LockIsExclusive(L: Layer, es: seq<Event>, t: Tid, u: Tid)
    requires L.Sound()
    requires var s := Exec(L, Init(L), es);
             && t in s.threads && u in s.threads && s.threads[t].sid == s.threads[u].sid
             && s.threads[t].pc.Holds() && s.threads[u].pc.Holds()
    ensures t == u
  {
    EveryRunKeepsInv(L, es);
  }

  // ----------------------------------------------------------- progress

  /** Steps a goroutine still has to take at most. */
  function Rank(pc: Pc): nat {
    match pc
    case Start => 12
    case WaitLock => 11
    case ReadUnlocked => 1
    case Locked => 10
    case ReadLocked => 2
    case GetCompressed => 9
    case InflateCached(_) => 8
    case StoreCached(_) => 7
    case MarkCached(_) => 6
    case Request => 9
    case Fetch => 8
    case InflateFetched(_) => 7
    case StoreFetched(_, _) => 6
    case MarkFetched(_, _) => 5
    case Revert => 4
    case Unlock(_) => 1
    case Finished(_) => 0
  }

  /** A goroutine that is not finished moves forward unless it waits for a lock that is taken. */
  lemma {:induction false} StepMakesProgress(L: Layer, t: Tid, th: Thread, sp: SpanSt, io: SpanIO)
    requires L.IndexOk() && th.sid <= L.z.MaxSpanID() && !th.pc.Finished?
    requires th.pc.WaitLock? ==> sp.lock.None?
    ensures Rank(ThreadStep(L, t, th, sp, io).1) < Rank(th.pc)
  {
  }

  /** No deadlock: while some goroutine is unfinished, one can move forward. */
  lemma {:induction false} NoDeadlock(L: Layer, es: seq<Event>, t: Tid) returns (u: Tid)
    requires L.Sound() && t in Exec(L, Init(L), es).threads && !Exec(L, Init(L), es).threads[t].pc.Finished?
    ensures u in Exec(L, Init(L), es).threads
    ensures forall io ::
              Rank(Exec(L, Init(L), es + [Sched(u, io)]).threads[u].pc) < Rank(Exec(L, Init(L), es).threads[u].pc)
  {
    EveryRunKeepsInv(L, es);
    var s := Exec(L, Init(L), es);
    var th := s.threads[t];
    u := t;
    if th.pc.WaitLock? && s.spans[th.sid].lock.Some? {
      assert SpanOk(L, s, th.sid);
      u := s.spans[th.sid].lock.value;
    }
    forall io ensures Rank(Exec(L, Init(L), es + [Sched(u, io)]).threads[u].pc) < Rank(s.threads[u].pc) {
      ExecSnoc(L, Init(L), es, Sched(u, io));
      StepMakesProgress(L, u, s.threads[u], s.spans[s.threads[u].sid], io);
    }
  }

  // ------------------------------------------- requests across several spans

  /** Goroutine `t` has read `got`, the slice of span `i` that a request needs. */
  predicate ReadDone(L: Layer, s: Sys, t: Tid, i: nat, start: int, end: int, got: Bytes)
    requires L.IndexOk() && Shaped(L, s) && i <= L.z.MaxSpanID()
  {
    && t in s.threads && s.threads[t].sid == i
    && s.threads[t].op.ReadOp?
    && s.threads[t].op.lo == LoInSpan(L.Spans()[i], start) && s.threads[t].op.hi == HiInSpan(L.Spans()[i], end)
    && s.threads[t].pc == Finished(Data(got))
  }

  lemma {:induction false} ReadDoneIsPiece(L: Layer, s: Sys, t: Tid, start: int, end: int, a: nat, b: nat, i: nat,
        got: Bytes)
    requires L.IndexOk() && Inv(L, s) && Located(L, start, end, a, b) && a <= i <= b
    requires ReadDone(L, s, t, i, start, end, got)
    ensures got == Piece(L, start, end, a, b, i)
  {
    assert ThreadOk(ContentOf(L, i), t, s.threads[t], s.spans[i]);
    PieceInside(L, start, end, a, b, i);
  }

  lemma {:induction false} LocatedReadsMakeTheRequest(L: Layer, s: Sys, start: int, end: int, a: nat, b: nat,
        tids: seq<Tid>, got: seq<Bytes>)
    requires L.IndexOk() && Inv(L, s) && Located(L, start, end, a, b) && a <= b && |tids| == |got| == b - a + 1
    requires forall j :: 0 <= j < |tids| ==> ReadDone(L, s, tids[j], a + j, start, end, got[j])
    ensures Flatten(got) == L.uncomp[start..end]
  {
    forall j | 0 <= j < |got| ensures got[j] == Piece(L, start, end, a, b, a + j) {
      ReadDoneIsPiece(L, s, tids[j], start, end, a, b, a + j, got[j]);
    }
    PiecesFromEach(L, start, end, a, b, got);
    PiecesMakeSlice(L, start, end, a, b);
  }

  /** However the goroutines of a request are interleaved with each other and with all others, the slices
      they return make up the requested bytes, from the start of the span table on. */
  lemma {:induction false} ConcurrentReadsMakeTheRequest(L: Layer, es: seq<Event>, start: nat, end: nat,
        tids: seq<Tid>, got: seq<Bytes>)
    requires L.Sound() && start <= end <= |L.uncomp| && EndFound(L, end)
    requires |tids| == |got| == SpanFor(L, end) - SpanFor(L, start) + 1 && SpanFor(L, end) <= L.z.MaxSpanID()
    requires var s := Exec(L, Init(L), es);
             forall j :: 0 <= j < |tids| ==> ReadDone(L, s, tids[j], SpanFor(L, start) + j, start, end, got[j])
    ensures start <= ServedFrom(L, start) <= end
    ensures Flatten(got) == L.uncomp[ServedFrom(L, start)..end]
    ensures Flatten(got) == L.uncomp[start..end] <==> Locatable(L, start, end)
  {
    EveryRunKeepsInv(L, es);
    ServedRightIffLocatable(L, start, end);
    ReadsMakeTheRequest(L, Exec(L, Init(L), es), start, end, tids, got);
  }

  lemma {:induction false} ReadsMakeTheRequest(L: Layer, s: Sys, start: nat, end: nat, tids: seq<Tid>, got: seq<Bytes>)
    requires L.IndexOk() && Inv(L, s) && start <= end <= |L.uncomp| && EndFound(L, end)
    requires |tids| == |got| == SpanFor(L, end) - SpanFor(L, start) + 1 && SpanFor(L, end) <= L.z.MaxSpanID()
    requires forall j :: 0 <= j < |tids| ==> ReadDone(L, s, tids[j], SpanFor(L, start) + j, start, end, got[j])
    ensures start <= ServedFrom(L, start) <= end
    ensures Flatten(got) == L.uncomp[ServedFrom(L, start)..end]
  {
    RequestIsServed(L, start, end);
    var from, a, b := ServedFrom(L, start), SpanFor(L, start), SpanFor(L, end);
    forall j | 0 <= j < |tids| ensures ReadDone(L, s, tids[j], a + j, from, end, got[j]) {
      assert ReadDone(L, s, tids[j], a + j, start, end, got[j]);
    }
    LocatedReadsMakeTheRequest(L, s, from, end, a, b, tids, got);
  }

  // ------------------------------------------------- a goroutine on its own

  /** Runs one goroutine to the end with nobody else around. */
  function Solo(L: Layer, t: Tid, th: Thread, sp: SpanSt, io: SpanIO): (SpanSt, Pc)
    requires L.IndexOk() && th.sid <= L.z.MaxSpanID()
    requires sp.lock == if th.pc.Holds() then Some(t) else None
    decreases Rank(th.pc)
  {
    if th.pc.Finished? then (sp, th.pc)
    else
      StepMakesProgress(L, t, th, sp, io);
      var (sp', pc') := ThreadStep(L, t, th, sp, io);
      Solo(L, t, th.(pc := pc'), sp', io)
  }

  function OutcomeOf(r: Option<Bytes>, op: Op): Outcome {
    if r.Some? then Slice(r.value, op) else Error
  }

  lemma {:induction false} SoloStep(L: Layer, t: Tid, th: Thread, sp: SpanSt, io: SpanIO)
    requires L.IndexOk() && th.sid <= L.z.MaxSpanID() && !th.pc.Finished?
    requires sp.lock == if th.pc.Holds() then Some(t) else None
    ensures var (sp', pc') := ThreadStep(L, t, th, sp, io);
            && sp'.lock == (if pc'.Holds() then Some(t) else None)
            && Solo(L, t, th, sp, io) == Solo(L, t, th.(pc := pc'), sp', io)
  {
  }

  lemma {:induction false} SoloUnlock(L: Layer, t: Tid, th: Thread, c: Cell, io: SpanIO)
    requires L.IndexOk() && th.sid <= L.z.MaxSpanID() && th.pc.Unlock?
    ensures Solo(L, t, th, SpanSt(c, Some(t)), io) == (SpanSt(c, None), Finished(th.pc.res))
  {
  }

  lemma {:induction false} SoloRevert(L: Layer, t: Tid, th: Thread, c: Cell, io: SpanIO)
    requires L.IndexOk() && th.sid <= L.z.MaxSpanID() && th.pc.Revert? && c.state == Requested
    ensures Solo(L, t, th, SpanSt(c, Some(t)), io) == (SpanSt(c.(state := Unrequested), None), Finished(Error))
  {
    SoloStep(L, t, th, SpanSt(c, Some(t)), io);
    SoloUnlock(L, t, th.(pc := Unlock(Error)), c.(state := Unrequested), io);
  }

  lemma {:induction false} SoloStore(L: Layer, t: Tid, th: Thread, c: Cell, io: SpanIO)
    requires L.IndexOk() && th.sid <= L.z.MaxSpanID() && c.state == Requested
    requires th.pc.StoreFetched? && th.pc.target in {Fetched, Uncompressed}
    ensures Solo(L, t, th, SpanSt(c, Some(t)), io) ==
      if io.addOk then (SpanSt(Cell(th.pc.target, Some(th.pc.buf)), None), Finished(Slice(th.pc.buf, th.op)))
      else (SpanSt(c.(state := Unrequested), None), Finished(Error))
  {
    SoloStep(L, t, th, SpanSt(c, Some(t)), io);
    if io.addOk {
      var marked := Cell(Requested, Some(th.pc.buf));
      SoloStep(L, t, th.(pc := MarkFetched(th.pc.buf, th.pc.target)), SpanSt(marked, Some(t)), io);
      SoloUnlock(L, t, th.(pc := Unlock(Slice(th.pc.buf, th.op))), marked.(state := th.pc.target), io);
    } else {
      SoloRevert(L, t, th.(pc := Revert), c, io);
    }
  }

  lemma {:induction false} SoloInflate(L: Layer, t: Tid, th: Thread, c: Cell, io: SpanIO)
    requires L.IndexOk() && th.sid <= L.z.MaxSpanID() && th.pc.InflateFetched? && c.state == Requested
    ensures var r := UncompressSpan(L, th.sid, th.pc.buf, io.inflateOk);
            Solo(L, t, th, SpanSt(c, Some(t)), io) ==
              if r.Some? && io.addOk then (SpanSt(Cell(Uncompressed, r), None), Finished(Slice(r.value, th.op)))
              else (SpanSt(c.(state := Unrequested), None), Finished(Error))
  {
    SoloStep(L, t, th, SpanSt(c, Some(t)), io);
    var r := UncompressSpan(L, th.sid, th.pc.buf, io.inflateOk);
    if r.Some? {
      SoloStore(L, t, th.(pc := StoreFetched(r.value, Uncompressed)), c, io);
    } else {
      SoloRevert(L, t, th.(pc := Revert), c, io);
    }
  }

  lemma {:induction false} SoloRequest(L: Layer, t: Tid, th: Thread, c: Cell, io: SpanIO)
    requires L.IndexOk() && th.sid <= L.z.MaxSpanID() && th.pc.Request?
    ensures var (c', r) := FetchAndCache(L, th.sid, c, !th.op.FetchOp?, io, |io.answers|);
            Solo(L, t, th, SpanSt(c, Some(t)), io) == (SpanSt(c', None), Finished(OutcomeOf(r, th.op)))
  {
    SoloStep(L, t, th, SpanSt(c, Some(t)), io);
    if Requested in ValidNext(c.state) {
      var asked := c.(state := Requested);
      SoloStep(L, t, th.(pc := Fetch), SpanSt(asked, Some(t)), io);
      var got := FetchWithRetries(L, th.sid, io.answers, |io.answers|);
      if got.None? {
        SoloRevert(L, t, th.(pc := Revert), asked, io);
      } else if th.op.FetchOp? {
        SoloStore(L, t, th.(pc := StoreFetched(got.value, Fetched)), asked, io);
      } else {
        SoloInflate(L, t, th.(pc := InflateFetched(got.value)), asked, io);
      }
    } else {
      SoloUnlock(L, t, th.(pc := Unlock(Error)), c, io);
    }
  }

  lemma {:induction false} SoloCached(L: Layer, t: Tid, th: Thread, c: Cell, io: SpanIO)
    requires L.IndexOk() && th.sid <= L.z.MaxSpanID() && th.pc.GetCompressed? && c.state == Fetched
    ensures var (c', r) := GetSpan(L, th.sid, c, io, |io.answers|);
            Solo(L, t, th, SpanSt(c, Some(t)), io) == (SpanSt(c', None), Finished(OutcomeOf(r, th.op)))
  {
    var sp := SpanSt(c, Some(t));
    SoloStep(L, t, th, sp, io);
    SoloUnlock(L, t, th.(pc := Unlock(Error)), c, io);
    if io.getOk && c.slot.Some? {
      SoloStep(L, t, th.(pc := InflateCached(c.slot.value)), sp, io);
      var r := UncompressSpan(L, th.sid, c.slot.value, io.inflateOk);
      if r.Some? {
        SoloStep(L, t, th.(pc := StoreCached(r.value)), sp, io);
        if io.addOk {
          SoloStep(L, t, th.(pc := MarkCached(r.value)), SpanSt(Cell(Fetched, r), Some(t)), io);
          SoloUnlock(L, t, th.(pc := Unlock(Slice(r.value, th.op))), Cell(Uncompressed, r), io);
        }
      }
    }
  }

  /** Left alone, the goroutines do what the sequential functions say: the manager's methods and this
      machine model the same code. */
  lemma {:induction false} SoloIsSequential(L: Layer, t: Tid, sid: nat, op: Op, c: Cell, io: SpanIO)
    requires L.IndexOk() && sid <= L.z.MaxSpanID()
    ensures var (sp', pc') := Solo(L, t, Thread(sid, op, Start), SpanSt(c, None), io);
            match op
            case FetchOp =>
              (sp', pc') == if c.state != Unrequested then (SpanSt(c, None), Finished(Ok))
                            else var (c', r) := FetchAndCache(L, sid, c, false, io, |io.answers|);
                                 (SpanSt(c', None), Finished(OutcomeOf(r, op)))
            case ResolveOp =>
              var (c', ok) := Resolve(L, sid, c, io, |io.answers|);
              (sp', pc') == (SpanSt(c', None), Finished(if ok then Ok else Error))
            case ReadOp(lo, hi) =>
              var (c', r) := GetSpan(L, sid, c, io, |io.answers|);
              (sp', pc') == (SpanSt(c', None), Finished(OutcomeOf(r, op)))
  {
    var th := Thread(sid, op, Start);
    var free, held := SpanSt(c, None), SpanSt(c, Some(t));
    SoloStep(L, t, th, free, io);
    var next := AfterCheck(c.state, op, false);
    if next.ReadUnlocked? {
      SoloStep(L, t, th.(pc := next), free, io);
    } else if next.WaitLock? {
      SoloStep(L, t, th.(pc := next), free, io);
      SoloStep(L, t, th.(pc := Locked), held, io);
      var pc := AfterCheck(c.state, op, true);
      if pc.Request? {
        SoloRequest(L, t, th.(pc := pc), c, io);
      } else {
        SoloCached(L, t, th.(pc := pc), c, io);
      }
    }
  }

  /** Left alone with good answers, a goroutine finishes with what it was asked for; only resolving a span
      that is cached in compressed form fails. */
  lemma {:induction false} SoloWithGoodAnswers(L: Layer, t: Tid, sid: nat, op: Op, c: Cell, io: SpanIO)
    requires L.Sound() && sid <= L.z.MaxSpanID() && OpOk(L, sid, op) && CellOk(ContentOf(L, sid), c)
    requires GoodIO(L, sid, io, |io.answers|)
    ensures Solo(L, t, Thread(sid, op, Start), SpanSt(c, None), io).1 ==
      match op
      case FetchOp => Finished(Ok)
      case ResolveOp => Finished(if c.state == Fetched then Error else Ok)
      case ReadOp(lo, hi) => Finished(Data(L.UncompSpan(sid)[lo..hi]))
  {
    SoloIsSequential(L, t, sid, op, c, io);
    FetchAndCacheKeepsCell(L, sid, c, !op.FetchOp?, io, |io.answers|);
    GetSpanKeepsCell(L, sid, c, io, |io.answers|);
  }

  /** The scheduler lets one goroutine take `n` steps. */
  function Turns(t: Tid, io: SpanIO, n: nat): seq<Event> {
    seq(n, _ => Sched(t, io))
  }

  lemma {:induction false} TurnsFromFirst(L: Layer, s: Sys, t: Tid, io: SpanIO, n: nat)
    requires L.IndexOk() && Shaped(L, s)
    ensures Exec(L, s, Turns(t, io, n + 1)) == Exec(L, Step(L, s, Sched(t, io)), Turns(t, io, n))
  {
    var all := Turns(t, io, n + 1);
    assert all[..n] == Turns(t, io, n);
    if n > 0 {
      TurnsFromFirst(L, s, t, io, n - 1);
      assert Turns(t, io, n)[..n - 1] == Turns(t, io, n - 1);
    } else {
      assert all == [Sched(t, io)] && all[..0] == [];
    }
  }

  /** The machine with other values for one goroutine and its span. */
  function With(s: Sys, t: Tid, th: Thread, sp: SpanSt): Sys
    requires th.sid < |s.spans|
  {
    Sys(s.spans[th.sid := sp], s.threads[t := th])
  }

  /** A goroutine is at this place, and its span's lock is free or its own. */
  predicate Alone(s: Sys, t: Tid, th: Thread, sp: SpanSt) {
    && t in s.threads && s.threads[t] == th && th.sid < |s.spans| && s.spans[th.sid] == sp
    && sp.lock == if th.pc.Holds() then Some(t) else None
  }

  /** One turn of a goroutine whose span nobody else has locked. */
  lemma {:induction false} OneTurn(L: Layer, s: Sys, t: Tid, th: Thread, sp: SpanSt, io: SpanIO)
      returns (th1: Thread, sp1: SpanSt)
    requires L.IndexOk() && Shaped(L, s) && Alone(s, t, th, sp) && !th.pc.Finished?
    ensures th1.sid == th.sid && th1.op == th.op && Rank(th1.pc) < Rank(th.pc)
    ensures Step(L, s, Sched(t, io)) == With(s, t, th1, sp1) && Shaped(L, With(s, t, th1, sp1))
    ensures Alone(With(s, t, th1, sp1), t, th1, sp1) && Solo(L, t, th, sp, io) == Solo(L, t, th1, sp1, io)
  {
    SoloStep(L, t, th, sp, io);
    StepMakesProgress(L, t, th, sp, io);
    th1, sp1 := th.(pc := ThreadStep(L, t, th, sp, io).1), ThreadStep(L, t, th, sp, io).0;
  }

  lemma {:induction false} WithTwice(s: Sys, t: Tid, th1: Thread, sp1: SpanSt, th2: Thread, sp2: SpanSt)
    requires th1.sid == th2.sid < |s.spans|
    ensures With(With(s, t, th1, sp1), t, th2, sp2) == With(s, t, th2, sp2)
  {
  }

  /** A goroutine that gets enough turns in a row does what it does on its own. */
  lemma {:induction false} TurnsAreSolo(L: Layer, s: Sys, t: Tid, th: Thread, sp: SpanSt, io: SpanIO) returns (n: nat)
    requires L.IndexOk() && Shaped(L, s) && Alone(s, t, th, sp)
    ensures var (sp', pc') := Solo(L, t, th, sp, io); Exec(L, s, Turns(t, io, n)) == With(s, t, th.(pc := pc'), sp')
    decreases Rank(th.pc)
  {
    if th.pc.Finished? {
      n := 0;
      assert Turns(t, io, 0) == [] && With(s, t, th, sp) == s;
    } else {
      var th1, sp1 := OneTurn(L, s, t, th, sp, io);
      var s1 := With(s, t, th1, sp1);
      var m := TurnsAreSolo(L, s1, t, th1, sp1, io);
      TurnsFromFirst(L, s, t, io, m);
      var (sp', pc') := Solo(L, t, th1, sp1, io);
      WithTwice(s, t, th1, sp1, th1.(pc := pc'), sp');
      n := m + 1;
    }
  }

  /** In every reachable state a goroutine can be started for every span and every slice of it. If nobody has the
      span's lock and its bytes arrive after mismatches only, it finishes, given its turns, with what it was
      asked for. */
  lemma {:induction false} StartedGoroutineFinishes(L: Layer, es: seq<Event>, t: Tid, sid: nat, op: Op, io: SpanIO)
      returns (n: nat)
    requires L.Sound() && sid <= L.z.MaxSpanID() && OpOk(L, sid, op) && GoodIO(L, sid, io, |io.answers|)
    requires t !in Exec(L, Init(L), es).threads && Exec(L, Init(L), es).spans[sid].lock.None?
    ensures var s := Exec(L, Init(L), es);
            var s' := Exec(L, Step(L, s, Spawn(t, sid, op)), Turns(t, io, n));
            && t in s'.threads
            && s'.threads[t].pc == match op
                                   case FetchOp => Finished(Ok)
                                   case ResolveOp => Finished(if s.spans[sid].cell.state == Fetched then Error else Ok)
                                   case ReadOp(lo, hi) => Finished(Data(L.UncompSpan(sid)[lo..hi]))
  {
    var s := Exec(L, Init(L), es);
    FreeSpansAreSettled(L, es, sid);
    SoloWithGoodAnswers(L, t, sid, op, s.spans[sid].cell, io);
    n := TurnsAreSolo(L, Step(L, s, Spawn(t, sid, op)), t, Thread(sid, op, Start), s.spans[sid], io);
  }
}
