/**
 Generation of gzip checkpoints: inflate writes its output round and round into a window of 32768 bytes,
 and at ends of deflate blocks the window is unrolled into a checkpoint.
 */
module CheckpointWindow {
  import opened Base
  import opened SpanIndex

  /** What one call of inflate did: the bytes it produced and consumed, and where it stopped. */
  datatype InflateStep = InflateStep(
    produced: Bytes, consumed: nat, bits: nat, blockEnd: bool, lastBlock: bool, streamEnd: bool)
  {
    /** It stopped at the end of a block, or of the header, that another block follows. */
    predicate EndsBlock() {
      !streamEnd && blockEnd && !lastBlock
    }
  }

  datatype Point = Point(bits: nat, inOff: nat, outOff: nat, window: Bytes)

  // ------------------------------------------------------- specification

  function Zeros(n: nat): Bytes {
    seq(n, _ => 0)
  }

  /** The last 32768 bytes of some output, zeros in front of it. */
  function WindowOf(output: Bytes): Bytes {
    (Zeros(WINSIZE) + output)[|output|..]
  }

  datatype Progress = Progress(output: Bytes, totin: nat, last: nat, points: seq<Point>)

  const START := Progress([], 0, 0, [])

  function Advance(g: Progress, step: InflateStep, span: nat): Progress {
    var out := g.output + step.produced;
    var g1 := g.(output := out, totin := g.totin + step.consumed);
    if step.EndsBlock() && (|out| == 0 || |out| - g.last > span)
    then g1.(last := |out|, points := g.points + [Point(step.bits, g1.totin, |out|, WindowOf(out))])
    else g1
  }

  function Generate(steps: seq<InflateStep>, span: nat): Progress {
    if steps == [] then START else Advance(Generate(steps[..|steps| - 1], span), steps[|steps| - 1], span)
  }

  /** Inflate never writes past the end of the window. */
  predicate ValidSteps(steps: seq<InflateStep>) {
    steps == [] || (
      && ValidSteps(steps[..|steps| - 1]) && steps[|steps| - 1].bits < 8
      && |steps[|steps| - 1].produced| <= WINSIZE - |Output(steps[..|steps| - 1])| % WINSIZE)
  }

  function Consumed(steps: seq<InflateStep>): nat {
    if steps == [] then 0 else Consumed(steps[..|steps| - 1]) + steps[|steps| - 1].consumed
  }

  /** The bit of the input at which the last block ended. */
  function LastEnd(steps: seq<InflateStep>): int {
    if steps == [] then -8
    else
      var step := steps[|steps| - 1];
      if step.EndsBlock() then 8 * Consumed(steps) - step.bits else LastEnd(steps[..|steps| - 1])
  }

  /** Every block takes at least one bit of the input. */
  predicate BlocksTakeBits(steps: seq<InflateStep>) {
    steps == [] || (
      && BlocksTakeBits(steps[..|steps| - 1])
      && (steps[|steps| - 1].EndsBlock() ==> LastEnd(steps[..|steps| - 1]) < LastEnd(steps)))
  }

  /** How many blocks, the header included, end before there is any output. */
  function EarlyEnds(steps: seq<InflateStep>): nat {
    if steps == [] then 0
    else EarlyEnds(steps[..|steps| - 1]) + (if steps[|steps| - 1].EndsBlock() && Output(steps) == [] then 1 else 0)
  }

  /** A block ends before any output or behind more than a span of it. */
  predicate HasEntryPoint(steps: seq<InflateStep>, span: nat) {
    steps != [] && (
      || HasEntryPoint(steps[..|steps| - 1], span)
      || (steps[|steps| - 1].EndsBlock() && (Output(steps) == [] || |Output(steps)| > span)))
  }

  function Output(steps: seq<InflateStep>): Bytes {
    if steps == [] then [] else Output(steps[..|steps| - 1]) + steps[|steps| - 1].produced
  }

  lemma {:induction false} GenerateOutput(steps: seq<InflateStep>, span: nat)
    ensures Generate(steps, span).output == Output(steps)
  {
    if steps != [] { GenerateOutput(steps[..|steps| - 1], span); }
  }

  lemma {:induction false} ValidPrefix(steps: seq<InflateStep>, n: nat)
    requires ValidSteps(steps) && n <= |steps|
    ensures ValidSteps(steps[..n])
    decreases |steps|
  {
    if n == |steps| {
      assert steps[..n] == steps;
    } else {
      assert steps[..|steps| - 1][..n] == steps[..n];
      ValidPrefix(steps[..|steps| - 1], n);
    }
  }

  // ------------------------------------------------------- the algorithm

  /** The window unrolled: what was written before the last wrap, then what was written since. */
  function Unrolled(window: Bytes, pos: nat): Bytes
    requires pos <= |window|
  {
    window[pos..] + window[..pos]
  }

  lemma {:induction false} WindowSlides(output: Bytes, produced: Bytes)
    requires |produced| <= WINSIZE
    ensures |WindowOf(output)| == WINSIZE
    ensures WindowOf(output + produced) == (WindowOf(output) + produced)[|produced|..]
  {
    var z := Zeros(WINSIZE);
    assert z + (output + produced) == (z + output) + produced;
    assert (z + output + produced)[|output|..] == (z + output)[|output|..] + produced;
  }

  lemma {:induction false} UnrolledSlides(window: Bytes, pos: nat, produced: Bytes, window': Bytes)
    requires pos + |produced| <= |window| == |window'|
    requires window' == window[..pos] + produced + window[pos + |produced|..]
    ensures Unrolled(window', pos + |produced|) == (Unrolled(window, pos) + produced)[|produced|..]
  {
    var n := |produced|;
    assert window'[pos + n..] == window[pos + n..];
    assert window'[..pos + n] == window[..pos] + produced;
    assert Unrolled(window, pos) + produced == window[pos..pos + n] + (window[pos + n..] + window[..pos] + produced);
  }

  /** Inflate's output goes to the window from `pos` on. */
  method WriteOutput(window: array<byte>, pos: nat, produced: Bytes)
    requires pos + |produced| <= window.Length
    modifies window
    ensures window[..] == old(window[..pos]) + produced + old(window[pos + |produced|..])
  {
    for i := 0 to |produced|
      invariant forall k :: 0 <= k < window.Length ==>
        window[k] == if pos <= k < pos + i then produced[k - pos] else old(window[k])
    {
      window[pos + i] := produced[i];
    }
    assert window[..pos] == old(window[..pos]) && window[pos + |produced|..] == old(window[pos + |produced|..]);
    assert window[pos..pos + |produced|] == produced;
  }

  /** Unrolls the window into a new checkpoint; `left` is the room left behind the write position. */
  method CopyWindow(window: array<byte>, left: nat) returns (copy: array<byte>)
    requires window.Length == WINSIZE && left <= WINSIZE
    ensures copy[..] == Unrolled(window[..], WINSIZE - left)
  {
    copy := new byte[WINSIZE];
    for i := 0 to left
      invariant forall k :: 0 <= k < i ==> copy[k] == window[WINSIZE - left + k]
    {
      copy[i] := window[WINSIZE - left + i];
    }
    for i := left to WINSIZE
      invariant forall k :: 0 <= k < left ==> copy[k] == window[WINSIZE - left + k]
      invariant forall k :: left <= k < i ==> copy[k] == window[k - left]
    {
      copy[i] := window[i - left];
    }
    IsUnrolled(window[..], WINSIZE - left, copy[..]);
  }

  lemma {:induction false} IsUnrolled(window: Bytes, pos: nat, copy: Bytes)
    requires pos <= |window| == |copy|
    requires forall k :: 0 <= k < |window| - pos ==> copy[k] == window[pos + k]
    requires forall k :: |window| - pos <= k < |window| ==> copy[k] == window[k - (|window| - pos)]
    ensures copy == Unrolled(window, pos)
  {
    var left := |window| - pos;
    assert copy[..left] == window[pos..] && copy[left..] == window[..pos];
    assert copy == copy[..left] + copy[left..];
  }

  /** The window, unrolled at the write position, is the end of the output. */
  predicate Holds(window: Bytes, availOut: nat, output: Bytes) {
    |window| == WINSIZE && Placed(|output|, availOut) && Unrolled(window, WINSIZE - availOut) == WindowOf(output)
  }

  /** One call of inflate: the window starts over when it is full. */
  method Inflate(window: array<byte>, room: nat, produced: Bytes, ghost output: Bytes) returns (availOut: nat)
    requires Holds(window[..], room, output) && |produced| <= WINSIZE - |output| % WINSIZE
    modifies window
    ensures Holds(window[..], availOut, output + produced)
  {
    availOut := room;
    if availOut == 0 {
      WrapAround(window[..]);
      availOut := WINSIZE;
    }
    RoomIsAvailable(|output|, availOut);
    ghost var before := window[..];
    WriteOutput(window, WINSIZE - availOut, produced);
    UnrolledSlides(before, WINSIZE - availOut, produced, window[..]);
    WindowSlides(output, produced);
    PlacedAfter(|output|, availOut, |produced|);
    availOut := availOut - |produced|;
  }

  method SaveWindow(window: array<byte>, availOut: nat, ghost output: Bytes) returns (copy: Bytes)
    requires Holds(window[..], availOut, output)
    ensures copy == WindowOf(output)
  {
    var unrolled := CopyWindow(window, availOut);
    copy := unrolled[..];
  }

  lemma {:induction false} OneMoreStep(steps: seq<InflateStep>, k: nat, span: nat)
    requires k < |steps| && ValidSteps(steps)
    ensures Generate(steps[..k + 1], span) == Advance(Generate(steps[..k], span), steps[k], span)
    ensures |steps[k].produced| <= WINSIZE - |Generate(steps[..k], span).output| % WINSIZE
  {
    ValidPrefix(steps, k + 1);
    GenerateOutput(steps[..k], span);
    assert steps[..k + 1][..k] == steps[..k];
  }

  /** The counters of the loop: room behind the write position, totals, and the checkpoints so far. */
  datatype Counters = Counters(availOut: nat, totin: nat, totout: nat, last: nat, points: seq<Point>)

  /** The window and the counters are those of some progress. */
  predicate Tracks(g: Progress, window: Bytes, c: Counters) {
    && g == Progress(g.output, c.totin, c.last, c.points)
    && c.totout == |g.output| && Holds(window, c.availOut, g.output)
  }

  method NewWindow() returns (window: array<byte>)
    ensures fresh(window) && Holds(window[..], 0, [])
  {
    window := new byte[WINSIZE](_ => 0);
    assert window[..] == Zeros(WINSIZE) == WindowOf([]);
  }

  /** The loop over inflate steps, with the circular window. */
  method GenerateZinfo(steps: seq<InflateStep>, span: nat) returns (points: seq<Point>)
    requires ValidSteps(steps)
    ensures points == Generate(steps, span).points
    ensures PointsAtEnds(steps, points) && EndsNearPoints(steps, span, points)
    ensures forall i :: 0 <= i < |points| - 1 ==> Apart(points, span, i)
  {
    var window := NewWindow();
    var c := Counters(0, 0, 0, 0, []);
    for k := 0 to |steps|
      invariant Tracks(Generate(steps[..k], span), window[..], c)
    {
      OneMoreStep(steps, k, span);
      c := RunStep(window, c, steps[k], span, Generate(steps[..k], span));
    }
    assert steps[..|steps|] == steps;
    points := c.points;
    PointsStandAtEnds(steps, span);
    EndsAreNearPoints(steps, span);
    CheckpointsAreSpanApart(steps, span);
  }

  /** One call of inflate, and a checkpoint if it stopped at the end of a block and the last is not too near. */
  method RunStep(window: array<byte>, c: Counters, step: InflateStep, span: nat, ghost g: Progress)
    returns (c': Counters)
    requires Tracks(g, window[..], c) && |step.produced| <= WINSIZE - |g.output| % WINSIZE
    modifies window
    ensures Tracks(Advance(g, step, span), window[..], c')
  {
    var availOut := Inflate(window, c.availOut, step.produced, g.output);
    var totin, totout := c.totin + step.consumed, c.totout + |step.produced|;
    c' := Counters(availOut, totin, totout, c.last, c.points);
    if step.EndsBlock() && (totout == 0 || totout - c.last > span) {
      var copy := SaveWindow(window, availOut, g.output + step.produced);
      c' := c'.(last := totout, points := c.points + [Point(step.bits, totin, totout, copy)]);
    }
  }

  /** The write position is the output's length modulo the window, the full window at its end. */
  predicate Placed(totout: nat, availOut: nat) {
    availOut <= WINSIZE && (totout + availOut) % WINSIZE == 0
  }

  lemma {:induction false} WrapAround(window: Bytes)
    requires |window| == WINSIZE
    ensures Unrolled(window, WINSIZE) == Unrolled(window, 0)
  {
  }

  lemma {:induction false} RoomIsAvailable(totout: nat, availOut: nat)
    requires Placed(totout, availOut) && availOut > 0
    ensures availOut == WINSIZE - totout % WINSIZE
  {
    var q, k := totout / 32768, (totout + availOut) / 32768;
    assert totout == 32768 * q + totout % 32768 && totout + availOut == 32768 * k;
    assert totout % 32768 + availOut == 32768 * (k - q);
  }

  lemma {:induction false} PlacedAfter(totout: nat, availOut: nat, n: nat)
    requires Placed(totout, availOut) && n <= availOut
    ensures Placed(totout + n, availOut - n)
  {
    assert totout + n + (availOut - n) == totout + availOut;
  }

  // ------------------------------------------------------- main theorems

  /** Every checkpoint's window is the output that precedes it, padded with zeros in front. */
  lemma {:induction false} WindowIsPrecedingOutput(steps: seq<InflateStep>, span: nat, i: nat)
    requires i < |Generate(steps, span).points|
    ensures var p := Generate(steps, span).points[i];
            p.outOff <= |Output(steps)| && p.window == WindowOf(Output(steps)[..p.outOff])
  {
    var front := steps[..|steps| - 1];
    GenerateOutput(front, span);
    GenerateOutput(steps, span);
    var before := Generate(front, span);
    if i < |before.points| {
      WindowIsPrecedingOutput(front, span, i);
      var p := before.points[i];
      assert Output(steps)[..p.outOff] == Output(front)[..p.outOff];
    } else {
      assert Output(steps)[..|Output(steps)|] == Output(steps);
    }
  }

  /** More than a span of output lies between two neighbours, or no output before either. */
  predicate Apart(points: seq<Point>, span: nat, i: int) {
    && 0 <= i < |points| - 1
    && (points[i + 1].outOff - points[i].outOff > span || points[i].outOff == points[i + 1].outOff == 0)
  }

  /** What is known of the checkpoints made so far. */
  predicate PointsOk(g: Progress, span: nat) {
    && g.last <= |g.output| && g.last == (if g.points == [] then 0 else g.points[|g.points| - 1].outOff)
    && (forall i {:trigger Apart(g.points, span, i)} :: 0 <= i < |g.points| - 1 ==> Apart(g.points, span, i))
  }

  lemma {:induction false} AdvanceKeepsPointsOk(g: Progress, step: InflateStep, span: nat)
    requires PointsOk(g, span)
    ensures PointsOk(Advance(g, step, span), span)
  {
    var g' := Advance(g, step, span);
    forall i | 0 <= i < |g'.points| - 1 ensures Apart(g'.points, span, i) {
      if i < |g.points| - 1 { assert Apart(g.points, span, i); }
    }
  }

  /** Neighbouring checkpoints are more than a span apart, unless both come before any output. */
  lemma {:induction false} CheckpointsAreSpanApart(steps: seq<InflateStep>, span: nat)
    ensures PointsOk(Generate(steps, span), span)
    ensures var points := Generate(steps, span).points; forall i :: 0 <= i < |points| - 1 ==> Apart(points, span, i)
  {
    if steps != [] {
      CheckpointsAreSpanApart(steps[..|steps| - 1], span);
      AdvanceKeepsPointsOk(Generate(steps[..|steps| - 1], span), steps[|steps| - 1], span);
    }
  }

  /** A point stands where step `k` stopped: at the end of a block, at its bit, behind what was consumed and
      produced up to there, with the last 32768 bytes of that output, or zeros, in its window. */
  predicate StandsAt(steps: seq<InflateStep>, k: nat, p: Point) {
    && k < |steps| && steps[k].EndsBlock() && p.bits == steps[k].bits
    && p.inOff == Consumed(steps[..k + 1]) && p.outOff == |Output(steps[..k + 1])|
    && |p.window| == 32768
    && (forall j :: 0 <= j < 32768 ==>
          p.window[j] == if p.outOff + j < 32768 then 0 else Output(steps[..k + 1])[p.outOff + j - 32768])
  }

  predicate Stands(steps: seq<InflateStep>, p: Point) {
    exists k: nat :: k < |steps| && StandsAt(steps, k, p)
  }

  predicate PointsAtEnds(steps: seq<InflateStep>, points: seq<Point>) {
    forall i :: 0 <= i < |points| ==> Stands(steps, points[i])
  }

  /** An offset of the output lies at a checkpoint or at most a span behind one, or behind the start. */
  predicate Near(points: seq<Point>, span: nat, off: nat) {
    || 0 < off <= span
    || exists i :: 0 <= i < |points| && points[i].outOff <= off <= points[i].outOff + span
  }

  predicate EndsNearPoints(steps: seq<InflateStep>, span: nat, points: seq<Point>) {
    forall k {:trigger steps[k]} :: 0 <= k < |steps| && steps[k].EndsBlock() ==>
      Near(points, span, |Output(steps[..k + 1])|)
  }

  lemma {:induction false} StandsInPrefix(steps: seq<InflateStep>, k: nat, p: Point)
    requires steps != [] && StandsAt(steps[..|steps| - 1], k, p)
    ensures StandsAt(steps, k, p)
  {
    assert steps[..|steps| - 1][..k + 1] == steps[..k + 1];
  }

  /** A new checkpoint stands where the last step stopped. */
  lemma {:induction false} LastPointStands(steps: seq<InflateStep>, span: nat)
    requires steps != [] && steps[|steps| - 1].EndsBlock()
    ensures StandsAt(steps, |steps| - 1, Point(steps[|steps| - 1].bits, Generate(steps, span).totin,
                                               |Generate(steps, span).output|, WindowOf(Generate(steps, span).output)))
  {
    GenerateOutput(steps, span);
    GenerateConsumed(steps, span);
    assert steps[..|steps|] == steps;
  }

  /** Every checkpoint stands at the end of a block, with the totals and the window of that place. */
  lemma {:induction false} PointsStandAtEnds(steps: seq<InflateStep>, span: nat)
    ensures PointsAtEnds(steps, Generate(steps, span).points)
  {
    if steps != [] {
      var front := steps[..|steps| - 1];
      var before, points := Generate(front, span).points, Generate(steps, span).points;
      PointsStandAtEnds(front, span);
      forall i | 0 <= i < |points| ensures Stands(steps, points[i]) {
        if i < |before| {
          assert points[i] == before[i];
          var k: nat :| k < |front| && StandsAt(front, k, before[i]);
          StandsInPrefix(steps, k, before[i]);
        } else {
          LastPointStands(steps, span);
          assert StandsAt(steps, |steps| - 1, points[i]);
        }
      }
    }
  }

  /** Every end of a block lies at a checkpoint or at most a span behind one. */
  lemma {:induction false} EndsAreNearPoints(steps: seq<InflateStep>, span: nat)
    ensures EndsNearPoints(steps, span, Generate(steps, span).points)
  {
    if steps != [] {
      var front := steps[..|steps| - 1];
      var before, points := Generate(front, span).points, Generate(steps, span).points;
      EndsAreNearPoints(front, span);
      forall k | 0 <= k < |steps| && steps[k].EndsBlock() ensures Near(points, span, |Output(steps[..k + 1])|) {
        if k < |front| {
          assert front[k] == steps[k] && front[..k + 1] == steps[..k + 1];
          NearStaysNear(before, points, span, |Output(steps[..k + 1])|);
        } else {
          assert steps[..k + 1] == steps;
          LastEndIsNear(steps, span);
        }
      }
    }
  }

  lemma {:induction false} NearStaysNear(before: seq<Point>, points: seq<Point>, span: nat, off: nat)
    requires before <= points && Near(before, span, off)
    ensures Near(points, span, off)
  {
    if !(0 < off <= span) {
      var i :| 0 <= i < |before| && before[i].outOff <= off <= before[i].outOff + span;
      assert points[i] == before[i];
    }
  }

  lemma {:induction false} LastEndIsNear(steps: seq<InflateStep>, span: nat)
    requires steps != [] && steps[|steps| - 1].EndsBlock()
    ensures Near(Generate(steps, span).points, span, |Output(steps)|)
  {
    var g := Generate(steps, span);
    GenerateOutput(steps, span);
    CheckpointsAreSpanApart(steps, span);
    if g.points != [] { assert g.points[|g.points| - 1].outOff == g.last; }
  }

  // ---------------------------------------- from checkpoints to span tables

  function TableOf(points: seq<Point>): seq<Checkpoint> {
    seq(|points|, i requires 0 <= i < |points| => Checkpoint(points[i].inOff, points[i].outOff, points[i].bits))
  }

  /** Deflate blocks take at least one bit each. */
  predicate BitsGrow(points: seq<Point>) {
    forall i {:trigger BitsApart(points, i)} :: 0 <= i < |points| - 1 ==> BitsApart(points, i)
  }

  predicate BitsApart(points: seq<Point>, i: int) {
    && 0 <= i < |points| - 1 && points[i].bits < 8
    && 8 * points[i].inOff - points[i].bits < 8 * points[i + 1].inOff - points[i + 1].bits
  }

  lemma {:induction false} TableSpan(points: seq<Point>, i: nat, compSize: int, uncompSize: int)
    requires i < |points| - 1 && BitsApart(points, i)
    ensures var span := SpanOf(Gzip(TableOf(points)), i, compSize, uncompSize);
            && span.startComp < span.endComp
            && span.startUncomp == points[i].outOff && span.endUncomp == points[i + 1].outOff
  {
  }

  lemma {:induction false} GenerateConsumed(steps: seq<InflateStep>, span: nat)
    ensures Generate(steps, span).totin == Consumed(steps)
  {
    if steps != [] { GenerateConsumed(steps[..|steps| - 1], span); }
  }

  /** The bit of the input at which the last checkpoint stands. */
  function LastBit(points: seq<Point>): int {
    if points == [] then -8 else 8 * points[|points| - 1].inOff - points[|points| - 1].bits
  }

  /** Blocks that take bits make checkpoints that stand at growing bits. */
  lemma {:induction false} GeneratedBitsGrow(steps: seq<InflateStep>, span: nat)
    requires ValidSteps(steps) && BlocksTakeBits(steps)
    ensures var points := Generate(steps, span).points;
            && BitsGrow(points) && LastBit(points) <= LastEnd(steps)
            && (points != [] ==> points[|points| - 1].bits < 8)
  {
    if steps != [] {
      var front := steps[..|steps| - 1];
      GeneratedBitsGrow(front, span);
      GenerateConsumed(steps, span);
      var points, points' := Generate(front, span).points, Generate(steps, span).points;
      forall i | 0 <= i < |points'| - 1 ensures BitsApart(points', i) {
        if i < |points| - 1 { assert BitsApart(points, i); }
      }
    }
  }

  /** The checkpoints in front of the output are the first ones, one for each early end of a block. */
  lemma {:induction false} EarlyPoints(steps: seq<InflateStep>, span: nat)
    ensures var points := Generate(steps, span).points;
            && EarlyEnds(steps) <= |points| && (Output(steps) == [] ==> EarlyEnds(steps) == |points|)
            && (forall i :: 0 <= i < |points| ==> (points[i].outOff == 0 <==> i < EarlyEnds(steps)))
  {
    if steps != [] {
      EarlyPoints(steps[..|steps| - 1], span);
      GenerateOutput(steps, span);
      GenerateOutput(steps[..|steps| - 1], span);
    }
  }

  lemma {:induction false} SomePointIff(steps: seq<InflateStep>, span: nat)
    ensures Generate(steps, span).points != [] <==> HasEntryPoint(steps, span)
  {
    if steps != [] {
      SomePointIff(steps[..|steps| - 1], span);
      GenerateOutput(steps, span);
      CheckpointsAreSpanApart(steps[..|steps| - 1], span);
    }
  }

  /** The span manager accepts a generated table exactly when at most one block, the header included, ends
      before any output. */
  lemma {:induction false} GeneratedTableAcceptedIff(steps: seq<InflateStep>, span: nat, compSize: int, uncompSize: int)
    requires ValidSteps(steps) && BlocksTakeBits(steps) && HasEntryPoint(steps, span)
    ensures var points := Generate(steps, span).points;
            && points != []
            && (Monotonic(SpansOf(Gzip(TableOf(points)), |points|, compSize, uncompSize)) <==> EarlyEnds(steps) <= 1)
  {
    SomePointIff(steps, span);
    GeneratedBitsGrow(steps, span);
    EarlyPoints(steps, span);
    CheckpointsAreSpanApart(steps, span);
    TableAcceptedIff(Generate(steps, span).points, span, compSize, uncompSize);
  }

  /** Such steps: the header and an empty block, which ends before any output. */
  lemma {:induction false} EmptyFirstBlockRefused(compSize: int, uncompSize: int)
    ensures var steps := [InflateStep([], 10, 0, true, false, false), InflateStep([], 1, 0, true, false, false)];
            var points := Generate(steps, 1).points;
            && ValidSteps(steps) && BlocksTakeBits(steps) && |points| == 2 && points[1].outOff == 0
            && !Monotonic(SpansOf(Gzip(TableOf(points)), |points|, compSize, uncompSize))
  {
    var header, block := InflateStep([], 10, 0, true, false, false), InflateStep([], 1, 0, true, false, false);
    TwoEarlyEnds(header, block);
    EarlyPoints([header, block], 1);
    GeneratedTableAcceptedIff([header, block], 1, compSize, uncompSize);
  }

  lemma {:induction false} TwoEarlyEnds(header: InflateStep, block: InflateStep)
    requires header.EndsBlock() && header.produced == [] && header.bits < 8
    requires block.EndsBlock() && block.produced == [] && block.bits < 8
    requires 8 * header.consumed - header.bits < 8 * (header.consumed + block.consumed) - block.bits
    ensures var steps := [header, block];
            && ValidSteps(steps) && BlocksTakeBits(steps) && HasEntryPoint(steps, 1)
            && EarlyEnds(steps) == 2 && Output(steps) == []
  {
    var none: seq<InflateStep>, one, two := [], [header], [header, block];
    assert one[..0] == none && two[..1] == one;
    assert Output(none) == [] && Consumed(none) == 0 && EarlyEnds(none) == 0 && LastEnd(none) == -8;
    assert ValidSteps(none) && BlocksTakeBits(none);
    assert Output(one) == Output(none) + header.produced && Consumed(one) == Consumed(none) + header.consumed;
    assert LastEnd(one) == 8 * header.consumed - header.bits && EarlyEnds(one) == 1;
    assert ValidSteps(one) && BlocksTakeBits(one);
    assert Output(two) == Output(one) + block.produced && Consumed(two) == Consumed(one) + block.consumed;
    assert LastEnd(two) == 8 * (header.consumed + block.consumed) - block.bits;
  }

  lemma {:induction false} TableAcceptedIff(points: seq<Point>, span: nat, compSize: int, uncompSize: int)
    requires points != [] && BitsGrow(points) && forall i :: 0 <= i < |points| - 1 ==> Apart(points, span, i)
    ensures Monotonic(SpansOf(Gzip(TableOf(points)), |points|, compSize, uncompSize)) <==>
        (|points| > 1 ==> points[1].outOff > 0)
  {
    var spans := SpansOf(Gzip(TableOf(points)), |points|, compSize, uncompSize);
    if |points| > 1 && points[1].outOff == 0 {
      assert BitsApart(points, 0);
      TableSpan(points, 0, compSize, uncompSize);
      assert !(spans[0].startUncomp < spans[0].endUncomp);
    } else {
      forall i | 0 <= i < |points| - 1
        ensures spans[i].startComp < spans[i].endComp && spans[i].startUncomp < spans[i].endUncomp
      {
        assert BitsApart(points, i);
        TableSpan(points, i, compSize, uncompSize);
        OutOffsetsGrow(points, span, i);
      }
    }
  }

  lemma {:induction false} OutOffsetsGrow(points: seq<Point>, span: nat, i: nat)
    requires i < |points| - 1 && points[1].outOff > 0 && forall k :: 0 <= k < |points| - 1 ==> Apart(points, span, k)
    ensures points[i].outOff < points[i + 1].outOff
  {
    assert Apart(points, span, i);
    if i > 0 { OutOffsetsGrow(points, span, i - 1); }
  }
}
