/**
 Fetching a blob in ranges: the ranges partition the blob, and writing them piece by piece into the
 file, in any interleaving, produces the blob.
 */
module ChunkRanges {
  import opened Base

  /** First and last byte of range `i`; without a chunk size the whole blob is one range. */
  function GetRange(chunkSize: int, i: nat, size: nat): (int, int) {
    if chunkSize <= 0 then (0, size - 1)
    else
      var lower := i * chunkSize;
      (lower, (if lower + chunkSize < size then lower + chunkSize else size) - 1)
  }

  function CalcNumLoops(chunkSize: int, size: nat): nat {
    if chunkSize <= 0 then 1
    else size / chunkSize + (if size % chunkSize != 0 then 1 else 0)
  }

  function Lower(chunkSize: int, i: nat, size: nat): int { GetRange(chunkSize, i, size).0 }

  function Upper(chunkSize: int, i: nat, size: nat): int { GetRange(chunkSize, i, size).1 }

  function Length(chunkSize: int, i: nat, size: nat): int {
    Upper(chunkSize, i, size) - Lower(chunkSize, i, size) + 1
  }

  predicate InRange(chunkSize: int, i: nat, size: nat, k: int) {
    Lower(chunkSize, i, size) <= k <= Upper(chunkSize, i, size)
  }

  // --------------------------------------------------------- arithmetic

  lemma {:induction false} DivMod(a: nat, c: nat)
    requires c > 0
    ensures a == a / c * c + a % c && 0 <= a % c < c
  {
  }

  lemma {:induction false} MulLess(a: nat, b: nat, c: nat)
    requires a < b
    ensures a * c + c <= b * c
  {
    assert b * c == (a + (b - a)) * c == a * c + (b - a) * c;
    assert (b - a) * c >= c by { assert (b - a - 1) * c >= 0; }
  }

  /** Every range but the last is full, and the last one reaches the end. */
  lemma {:induction false} RangeStarts(chunkSize: nat, i: nat, size: nat)
    requires chunkSize > 0 && size > 0 && i < CalcNumLoops(chunkSize, size)
    ensures i * chunkSize < size
  {
    var q := size / chunkSize;
    DivMod(size, chunkSize);
    if i < q {
      MulLess(i, q, chunkSize);
    } else {
      assert i == q;
    }
  }

  lemma {:induction false} RangesReachEnd(chunkSize: nat, size: nat)
    requires chunkSize > 0 && size > 0
    ensures CalcNumLoops(chunkSize, size) * chunkSize >= size
  {
    DivMod(size, chunkSize);
    var q := size / chunkSize;
    if size % chunkSize != 0 { assert (q + 1) * chunkSize == q * chunkSize + chunkSize; }
  }

  // ------------------------------------------------------- main theorems

  /** Ranges are inside the blob, not empty and at most one chunk long. */
  lemma {:induction false} RangesAreProper(chunkSize: int, i: nat, size: nat)
    requires size > 0 && i < CalcNumLoops(chunkSize, size)
    ensures 0 <= Lower(chunkSize, i, size) <= Upper(chunkSize, i, size) < size
    ensures chunkSize > 0 ==> Length(chunkSize, i, size) <= chunkSize
  {
    if chunkSize > 0 {
      RangeStarts(chunkSize, i, size);
      assert i * chunkSize >= 0;
    }
  }

  /** Every byte of the blob lies in one range, and in one only; without a chunk size there is one. */
  lemma {:induction false} RangesPartition(chunkSize: int, size: nat, k: nat)
    requires k < size
    ensures exists i: nat :: i < CalcNumLoops(chunkSize, size) && InRange(chunkSize, i, size, k)
    ensures forall i: nat, j: nat {:trigger InRange(chunkSize, i, size, k), InRange(chunkSize, j, size, k)} |
              InRange(chunkSize, i, size, k) && InRange(chunkSize, j, size, k) :: i == j || chunkSize <= 0
  {
    if chunkSize <= 0 {
      assert InRange(chunkSize, 0, size, k);
    } else {
      var n := k / chunkSize;
      DivMod(k, chunkSize);
      RangesReachEnd(chunkSize, size);
      if n >= CalcNumLoops(chunkSize, size) {
        NoRangeLeft(chunkSize, size, n);
      }
      assert InRange(chunkSize, n, size, k);
      forall i: nat, j: nat | InRange(chunkSize, i, size, k) && InRange(chunkSize, j, size, k) ensures i == j {
        SameRange(chunkSize, size, k, i, j);
      }
    }
  }

  lemma {:induction false} NoRangeLeft(chunkSize: nat, size: nat, n: nat)
    requires chunkSize > 0 && size > 0 && n >= CalcNumLoops(chunkSize, size)
    ensures n * chunkSize >= size
  {
    RangesReachEnd(chunkSize, size);
    if n > CalcNumLoops(chunkSize, size) { MulLess(CalcNumLoops(chunkSize, size), n, chunkSize); }
  }

  lemma {:induction false} SameRange(chunkSize: nat, size: nat, k: nat, i: nat, j: nat)
    requires chunkSize > 0 && InRange(chunkSize, i, size, k) && InRange(chunkSize, j, size, k)
    ensures i == j
  {
    if i < j { MulLess(i, j, chunkSize); }
    if j < i { MulLess(j, i, chunkSize); }
  }

  // ------------------------------------------------------ parallel writes

  /** The file, and how much of each range has been written. */
  datatype State = State(file: Bytes, done: seq<nat>)

  datatype Event = Write(i: nat, n: nat)

  /** `n` more bytes of range `i` arrive and are written behind those already there. */
  function Step(blob: Bytes, chunkSize: int, s: State, e: Event): State {
    var size := |blob|;
    if e.i >= |s.done| || |s.file| != size || s.done[e.i] + e.n > Length(chunkSize, e.i, size)
       || Lower(chunkSize, e.i, size) < 0 || Upper(chunkSize, e.i, size) >= size then s
    else
      var at := Lower(chunkSize, e.i, size) + s.done[e.i];
      State(s.file[..at] + blob[at..at + e.n] + s.file[at + e.n..], s.done[e.i := s.done[e.i] + e.n])
  }

  function Run(blob: Bytes, chunkSize: int, s: State, es: seq<Event>): State {
    if es == [] then s else Step(blob, chunkSize, Run(blob, chunkSize, s, es[..|es| - 1]), es[|es| - 1])
  }

  function Init(file: Bytes, chunkSize: int): State {
    State(file, seq(CalcNumLoops(chunkSize, |file|), _ => 0))
  }

  /** What range `i` has received is in its place. */
  predicate RangeOk(blob: Bytes, chunkSize: int, s: State, i: nat) {
    && i < |s.done| && s.done[i] <= Length(chunkSize, i, |blob|)
    && (forall k | 0 <= k < |blob| && k < |s.file| ::
          Lower(chunkSize, i, |blob|) <= k < Lower(chunkSize, i, |blob|) + s.done[i] ==> s.file[k] == blob[k])
  }

  ghost predicate Inv(blob: Bytes, chunkSize: int, s: State) {
    && |s.file| == |blob| && |s.done| == CalcNumLoops(chunkSize, |blob|)
    && (forall i: nat {:trigger RangeOk(blob, chunkSize, s, i)} :: i < |s.done| ==> RangeOk(blob, chunkSize, s, i))
  }

  lemma {:induction false} StepKeepsInv(blob: Bytes, chunkSize: int, s: State, e: Event)
    requires Inv(blob, chunkSize, s)
    ensures Inv(blob, chunkSize, Step(blob, chunkSize, s, e))
  {
    var s' := Step(blob, chunkSize, s, e);
    forall i: nat | i < |s'.done| ensures RangeOk(blob, chunkSize, s', i) {
      assert RangeOk(blob, chunkSize, s, i);
    }
  }

  lemma {:induction false} EveryRunKeepsInv(blob: Bytes, chunkSize: int, file: Bytes, es: seq<Event>)
    requires |file| == |blob| > 0
    ensures Inv(blob, chunkSize, Run(blob, chunkSize, Init(file, chunkSize), es))
  {
    if es == [] {
      forall i: nat | i < CalcNumLoops(chunkSize, |blob|) ensures RangeOk(blob, chunkSize, Init(file, chunkSize), i) {
        RangesAreProper(chunkSize, i, |blob|);
      }
    } else {
      EveryRunKeepsInv(blob, chunkSize, file, es[..|es| - 1]);
      StepKeepsInv(blob, chunkSize, Run(blob, chunkSize, Init(file, chunkSize), es[..|es| - 1]), es[|es| - 1]);
    }
  }

  /** When every range is complete, in whatever order its pieces came, the file is the blob. */
  lemma {:induction false} CompletedFileIsBlob(blob: Bytes, chunkSize: int, file: Bytes, es: seq<Event>)
    requires |file| == |blob| > 0
    requires var s := Run(blob, chunkSize, Init(file, chunkSize), es);
             forall i: nat :: i < |s.done| ==> s.done[i] == Length(chunkSize, i, |blob|)
    ensures Run(blob, chunkSize, Init(file, chunkSize), es).file == blob
  {
    var s := Run(blob, chunkSize, Init(file, chunkSize), es);
    EveryRunKeepsInv(blob, chunkSize, file, es);
    forall k: nat | k < |blob| ensures s.file[k] == blob[k] {
      RangesPartition(chunkSize, |blob|, k);
      var i: nat :| i < CalcNumLoops(chunkSize, |blob|) && InRange(chunkSize, i, |blob|, k);
      assert RangeOk(blob, chunkSize, s, i);
    }
  }

  /** The ranges up to `n`, each in one piece. */
  function Whole(chunkSize: int, size: nat, n: nat): seq<Event>
    requires size > 0 && n <= CalcNumLoops(chunkSize, size)
  {
    if n == 0 then []
    else
      RangesAreProper(chunkSize, n - 1, size);
      Whole(chunkSize, size, n - 1) + [Write(n - 1, Length(chunkSize, n - 1, size))]
  }

  lemma {:induction false} RangeArrives(blob: Bytes, chunkSize: int, s: State, i: nat)
    requires Inv(blob, chunkSize, s) && i < |s.done| && s.done[i] == 0 && |blob| > 0
    ensures var n := Length(chunkSize, i, |blob|);
            n >= 0 && Step(blob, chunkSize, s, Write(i, n)).done == s.done[i := n]
  {
    RangesAreProper(chunkSize, i, |blob|);
  }

  lemma {:induction false} WholeRangesArrive(blob: Bytes, chunkSize: int, file: Bytes, n: nat)
    requires |file| == |blob| > 0 && n <= CalcNumLoops(chunkSize, |blob|)
    ensures var s := Run(blob, chunkSize, Init(file, chunkSize), Whole(chunkSize, |blob|, n));
            && |s.done| == CalcNumLoops(chunkSize, |blob|)
            && (forall i: nat :: i < n ==> s.done[i] == Length(chunkSize, i, |blob|))
            && (forall i: nat :: n <= i < |s.done| ==> s.done[i] == 0)
  {
    if n > 0 {
      var es := Whole(chunkSize, |blob|, n);
      assert es[..|es| - 1] == Whole(chunkSize, |blob|, n - 1);
      WholeRangesArrive(blob, chunkSize, file, n - 1);
      EveryRunKeepsInv(blob, chunkSize, file, Whole(chunkSize, |blob|, n - 1));
      RangeArrives(blob, chunkSize, Run(blob, chunkSize, Init(file, chunkSize), es[..|es| - 1]), n - 1);
    }
  }

  /** Fetching every range of the plan, whatever the file held before, makes the file the blob. */
  lemma {:induction false} AllRangesMakeTheBlob(blob: Bytes, chunkSize: int, file: Bytes)
    requires |file| == |blob| > 0
    ensures var es := Whole(chunkSize, |blob|, CalcNumLoops(chunkSize, |blob|));
            Run(blob, chunkSize, Init(file, chunkSize), es).file == blob
  {
    var n := CalcNumLoops(chunkSize, |blob|);
    WholeRangesArrive(blob, chunkSize, file, n);
    CompletedFileIsBlob(blob, chunkSize, file, Whole(chunkSize, |blob|, n));
  }

  /** A piece of one range touches no byte of another. */
  lemma {:induction false} WritesStayInTheirRange(blob: Bytes, chunkSize: int, s: State, e: Event, j: nat, k: nat)
    requires Inv(blob, chunkSize, s) && j < |s.done| && j != e.i && k < |blob| && InRange(chunkSize, j, |blob|, k)
    ensures Step(blob, chunkSize, s, e).file[k] == s.file[k]
  {
    RangesPartition(chunkSize, |blob|, k);
    if e.i < |s.done| {
      assert chunkSize > 0 ==> InRange(chunkSize, j, |blob|, k);
      assert !InRange(chunkSize, e.i, |blob|, k);
    }
  }
}
