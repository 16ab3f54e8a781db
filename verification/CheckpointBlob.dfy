/**
 The packed form of a gzip index: a count and a span size, then one record per checkpoint. Version 1
 leaves the first checkpoint out and puts a fixed one in its place when it is read back.
 */
module CheckpointBlob {
  import opened Base

  const PACKED := 8 + 8 + 1 + 32768
  const WORD32: nat := 4
  const WORD64: nat := 8
  const HEADER := 4 + 8

  // -------------------------------------------------- little-endian words

  function Digit(v: nat, i: nat): byte {
    if i == 0 then v % 256 else Digit(v / 256, i - 1)
  }

  function EncodeLE(v: nat, k: nat): Bytes {
    seq(k, i requires 0 <= i < k => Digit(v, i))
  }

  lemma {:induction false} EncodeTail(v: nat, k: nat)
    requires k > 0
    ensures EncodeLE(v, k) == [v % 256] + EncodeLE(v / 256, k - 1)
  {
    forall i | 0 < i < k ensures EncodeLE(v, k)[i] == EncodeLE(v / 256, k - 1)[i - 1] {
      assert Digit(v, i) == Digit(v / 256, i - 1);
    }
  }

  function DecodeLE(b: Bytes): nat {
    if b == [] then 0 else b[0] + 256 * DecodeLE(b[1..])
  }

  function Pow256(k: nat): (r: nat)
    ensures r > 0
  {
    if k == 0 then 1 else 256 * Pow256(k - 1)
  }

  lemma {:induction false} DecodeEncodeLE(v: nat, k: nat)
    requires v < Pow256(k)
    ensures |EncodeLE(v, k)| == k && DecodeLE(EncodeLE(v, k)) == v
  {
    if k > 0 {
      EncodeTail(v, k);
      DecodeEncodeLE(v / 256, k - 1);
      assert EncodeLE(v, k)[1..] == EncodeLE(v / 256, k - 1);
    }
  }

  lemma {:induction false} EncodeDecodeLE(b: Bytes)
    ensures DecodeLE(b) < Pow256(|b|) && EncodeLE(DecodeLE(b), |b|) == b
  {
    if b != [] {
      EncodeDecodeLE(b[1..]);
      LowByte(b[0], DecodeLE(b[1..]));
      EncodeTail(DecodeLE(b), |b|);
      assert b == [b[0]] + b[1..];
    }
  }

  lemma {:induction false} LowByte(low: byte, rest: nat)
    ensures (low + 256 * rest) % 256 == low && (low + 256 * rest) / 256 == rest
  {
  }

  // -------------------------------------------------------------- records

  datatype Packed = Packed(inOff: nat, outOff: nat, bits: byte, window: Bytes)

  predicate PackedOk(p: Packed) {
    p.inOff < Pow256(WORD64) && p.outOff < Pow256(WORD64) && |p.window| == WINSIZE
  }

  function PrintPoint(p: Packed): Bytes {
    EncodeLE(p.inOff, WORD64) + EncodeLE(p.outOff, WORD64) + [p.bits] + p.window
  }

  function ParsePoint(b: Bytes): Packed
    requires |b| == PACKED
  {
    Packed(DecodeLE(b[..8]), DecodeLE(b[8..16]), b[16], b[17..])
  }

  lemma {:induction false} ParsePrintPoint(p: Packed)
    requires PackedOk(p)
    ensures |PrintPoint(p)| == PACKED && ParsePoint(PrintPoint(p)) == p
  {
    DecodeEncodeLE(p.inOff, WORD64);
    DecodeEncodeLE(p.outOff, WORD64);
    ThreeParts(EncodeLE(p.inOff, WORD64), EncodeLE(p.outOff, WORD64), p.bits, p.window);
  }

  lemma {:induction false} ThreeParts(first: Bytes, second: Bytes, bits: byte, window: Bytes)
    requires |first| == 8 && |second| == 8
    ensures var b := first + second + [bits] + window;
            b[..8] == first && b[8..16] == second && b[16] == bits && b[17..] == window
  {
  }

  lemma {:induction false} PrintParsePoint(b: Bytes)
    requires |b| == PACKED
    ensures PackedOk(ParsePoint(b)) && PrintPoint(ParsePoint(b)) == b
  {
    EncodeDecodeLE(b[..8]);
    EncodeDecodeLE(b[8..16]);
    JoinRecord(b);
  }

  lemma {:induction false} JoinRecord(b: Bytes)
    requires |b| == PACKED
    ensures b == b[..8] + b[8..16] + [b[16]] + b[17..] && |b[17..]| == WINSIZE
  {
  }

  // ---------------------------------------------------------------- bodies

  function PrintPoints(list: seq<Packed>): Bytes {
    if list == [] then [] else PrintPoints(list[..|list| - 1]) + PrintPoint(list[|list| - 1])
  }

  function ParsePoints(b: Bytes, n: nat): seq<Packed>
    requires |b| == PACKED * n
  {
    if n == 0 then [] else ParsePoints(b[..PACKED * (n - 1)], n - 1) + [ParsePoint(b[PACKED * (n - 1)..])]
  }

  lemma {:induction false} ParsePrintPoints(list: seq<Packed>)
    requires forall i :: 0 <= i < |list| ==> PackedOk(list[i])
    ensures |PrintPoints(list)| == PACKED * |list| && ParsePoints(PrintPoints(list), |list|) == list
  {
    if list != [] {
      var front, last := list[..|list| - 1], list[|list| - 1];
      ParsePrintPoints(front);
      ParsePrintPoint(last);
      var b := PrintPoints(list);
      assert b[..PACKED * |front|] == PrintPoints(front) && b[PACKED * |front|..] == PrintPoint(last);
      assert list == front + [last];
    }
  }

  lemma {:induction false} PrintParsePoints(b: Bytes, n: nat)
    requires |b| == PACKED * n
    ensures |ParsePoints(b, n)| == n && PrintPoints(ParsePoints(b, n)) == b
  {
    if n > 0 {
      var front, last := CutRecord(b, n);
      PrintParsePoints(front, n - 1);
      PrintParsePoint(last);
      PrintedSnoc(ParsePoints(front, n - 1), ParsePoint(last), front, last);
    }
  }

  lemma {:induction false} PrintedSnoc(list: seq<Packed>, p: Packed, front: Bytes, last: Bytes)
    requires PrintPoints(list) == front && PrintPoint(p) == last
    ensures PrintPoints(list + [p]) == front + last
  {
    PrintSnoc(list, p);
  }

  lemma {:induction false} PrintNext(list: seq<Packed>, first: nat, i: nat)
    requires first <= i < |list|
    ensures PrintPoints(list[first..i + 1]) == PrintPoints(list[first..i]) + PrintPoint(list[i])
  {
    assert list[first..i + 1] == list[first..i] + [list[i]];
    PrintSnoc(list[first..i], list[i]);
  }

  lemma {:induction false} ParsedPoints(b: Bytes, n: nat)
    requires |b| == PACKED * n
    ensures |ParsePoints(b, n)| == n && forall i :: 0 <= i < n ==> PackedOk(ParsePoints(b, n)[i])
  {
    if n > 0 {
      var front, last := CutRecord(b, n);
      ParsedPoints(front, n - 1);
      PrintParsePoint(last);
    }
  }

  /** The last record of a body and the body before it. */
  lemma {:induction false} CutRecord(b: Bytes, n: nat) returns (front: Bytes, last: Bytes)
    requires |b| == PACKED * n && n > 0
    ensures b == front + last && |front| == PACKED * (n - 1) && |last| == PACKED
    ensures ParsePoints(b, n) == ParsePoints(front, n - 1) + [ParsePoint(last)]
  {
    front, last := b[..PACKED * (n - 1)], b[PACKED * (n - 1)..];
  }

  lemma {:induction false} PrintSnoc(list: seq<Packed>, p: Packed)
    ensures PrintPoints(list + [p]) == PrintPoints(list) + PrintPoint(p)
  {
    assert (list + [p])[..|list|] == list;
  }

  // ----------------------------------------------------------------- blobs

  datatype Version = V1 | V2

  datatype Index = Index(version: Version, spanSize: nat, list: seq<Packed>)

  /** The checkpoint a version 1 index is assumed to start with. */
  function FirstOfV1(): Packed {
    Packed(10, 0, 0, seq(WINSIZE, _ => 0))
  }

  const WRAP := 0x1_0000_0000

  /** The size of this many checkpoints, computed in 32 bits without sign. */
  function SizeOf(count: nat): nat {
    (PACKED * count + HEADER) % WRAP
  }

  /** The size of this many checkpoints does not wrap around. */
  predicate Countable(count: nat) {
    PACKED * count + HEADER < WRAP
  }

  predicate IndexOk(x: Index) {
    && Countable(|x.list|) && x.spanSize < Pow256(WORD64)
    && (forall i :: 0 <= i < |x.list| ==> PackedOk(x.list[i]))
    && (x.version.V1? ==> x.list != [] && x.list[0] == FirstOfV1())
  }

  /** The checkpoints that are written. */
  function Written(x: Index): seq<Packed>
    requires x.version.V1? ==> x.list != []
  {
    if x.version.V1? then x.list[1..] else x.list
  }

  function Print(x: Index): Bytes
    requires x.version.V1? ==> x.list != []
  {
    EncodeLE(|x.list|, WORD32) + EncodeLE(x.spanSize, WORD64) + PrintPoints(Written(x))
  }

  /** What reading a blob comes to; `Overrun` is a loop that reads past the end of the blob. */
  datatype Outcome = Refused | Overrun | Loaded(index: Index)

  /** The version a blob of this length with this count has; other lengths are refused. */
  function VersionOf(count: nat, len: nat): Option<Version> {
    if SizeOf(count) == len then Some(V2)
    else if SizeOf(count) - PACKED == len then Some(V1)
    else None
  }

  /** The records a blob is read for; version 1 has none for the first checkpoint. */
  function RecordCount(version: Version, count: nat): int {
    if version.V1? then count - 1 else count
  }

  /** An index from its count, its span size and the bytes of its records. The memory for a count that is
      negative as a signed word is never there. */
  function Assemble(count: nat, spanSize: nat, body: Bytes): Outcome {
    var version := VersionOf(count, HEADER + |body|);
    if version.None? || count >= WRAP / 2 then Refused
    else
      var n := RecordCount(version.value, count);
      if n < 0 || |body| < PACKED * n then Overrun
      else
        var points := ParsePoints(body[..PACKED * n], n);
        Loaded(Index(version.value, spanSize, if version.value.V1? then [FirstOfV1()] + points else points))
  }

  function Parse(b: Bytes): Outcome {
    if |b| < HEADER then Refused else Assemble(DecodeLE(b[..4]), DecodeLE(b[4..12]), b[12..])
  }

  /** Of a blob whose length is accepted, in either version, the record loop stays inside exactly when the
      size of its checkpoints does not wrap around; then the records fill the blob. */
  lemma {:induction false} LoopStaysInsideIffCountable(count: nat, len: nat)
    requires VersionOf(count, len).Some?
    ensures var n := RecordCount(VersionOf(count, len).value, count);
            && n >= 0
            && (HEADER + PACKED * n <= len <==> Countable(count))
            && (Countable(count) ==> HEADER + PACKED * n == len)
  {
    assert count == 0 ==> SizeOf(count) == HEADER;
    SizeWrapsIff(count);
    assert PACKED * (count - 1) == PACKED * count - PACKED;
  }

  /** A wrapped size: 31641 bytes that claim 131005 checkpoints are taken for a version 2 blob. */
  lemma {:induction false} WrappedBlobOverruns(body: Bytes)
    requires |body| == 31629
    ensures VersionOf(131005, HEADER + |body|) == Some(V2) && Assemble(131005, 0, body) == Overrun
  {
    assert SizeOf(131005) == 31641;
  }

  lemma {:induction false} HeaderOf(n: nat, span: nat, body: Bytes)
    requires n < Pow256(WORD32) && span < Pow256(WORD64)
    ensures var b := EncodeLE(n, WORD32) + EncodeLE(span, WORD64) + body;
            |b| == HEADER + |body| && DecodeLE(b[..4]) == n && DecodeLE(b[4..12]) == span && b[12..] == body
  {
    DecodeEncodeLE(n, WORD32);
    DecodeEncodeLE(span, WORD64);
    var b := EncodeLE(n, WORD32) + EncodeLE(span, WORD64) + body;
    assert b[..4] == EncodeLE(n, WORD32) && b[4..12] == EncodeLE(span, WORD64) && b[12..] == body;
  }

  lemma {:induction false} CountFits(n: nat)
    requires Countable(n)
    ensures n < Pow256(WORD32)
  {
    assert Pow256(4) == 0x1_0000_0000;
  }

  lemma {:induction false} VersionOfWritten(n: nat)
    requires Countable(n)
    ensures VersionOf(n, HEADER + PACKED * n) == Some(V2)
    ensures n > 0 ==> VersionOf(n, HEADER + PACKED * (n - 1)) == Some(V1)
  {
    assert PACKED * (n - 1) == PACKED * n - PACKED;
  }

  lemma {:induction false} AssembleRecords(version: Version, count: nat, spanSize: nat, body: Bytes)
    requires Countable(count) && 0 <= RecordCount(version, count) && |body| == PACKED * RecordCount(version, count)
    ensures var points := ParsePoints(body, RecordCount(version, count));
            Assemble(count, spanSize, body) ==
              Loaded(Index(version, spanSize, if version.V1? then [FirstOfV1()] + points else points))
  {
    VersionOfWritten(count);
    assert body[..|body|] == body;
  }

  lemma {:induction false} AssembleWritten(x: Index)
    requires IndexOk(x)
    ensures Assemble(|x.list|, x.spanSize, PrintPoints(Written(x))) == Loaded(x)
    ensures |PrintPoints(Written(x))| == PACKED * RecordCount(x.version, |x.list|)
  {
    var written := Written(x);
    WrittenIsPacked(x);
    ParsePrintPoints(written);
    AssembleRecords(x.version, |x.list|, x.spanSize, PrintPoints(written));
  }

  lemma {:induction false} WrittenIsPacked(x: Index)
    requires IndexOk(x)
    ensures |Written(x)| == RecordCount(x.version, |x.list|)
    ensures forall i :: 0 <= i < |Written(x)| ==> PackedOk(Written(x)[i])
    ensures x.list == if x.version.V1? then [FirstOfV1()] + Written(x) else Written(x)
  {
    assert x.version.V1? ==> x.list == [x.list[0]] + x.list[1..];
  }

  /** A printed index of either version reads back as it was. */
  lemma {:induction false} ParsePrint(x: Index)
    requires IndexOk(x)
    ensures Parse(Print(x)) == Loaded(x)
    ensures |Print(x)| == PACKED * RecordCount(x.version, |x.list|) + HEADER
  {
    CountFits(|x.list|);
    AssembleWritten(x);
    HeaderOf(|x.list|, x.spanSize, PrintPoints(Written(x)));
  }

  lemma {:induction false} AssembledIsWritten(count: nat, spanSize: nat, body: Bytes)
    requires Assemble(count, spanSize, body).Loaded? && spanSize < Pow256(WORD64)
    ensures var x := Assemble(count, spanSize, body).index;
            IndexOk(x) && |x.list| == count && x.spanSize == spanSize && PrintPoints(Written(x)) == body
  {
    var x := Assemble(count, spanSize, body).index;
    LoopStaysInsideIffCountable(count, HEADER + |body|);
    var n := RecordCount(x.version, count);
    assert body[..PACKED * n] == body;
    PrintParsePoints(body, n);
    ParsedPoints(body, n);
    PutInFront(ParsePoints(body, n));
  }

  lemma {:induction false} PutInFront(list: seq<Packed>)
    requires forall i :: 0 <= i < |list| ==> PackedOk(list[i])
    ensures var all := [FirstOfV1()] + list; all[1..] == list && forall i :: 0 <= i < |all| ==> PackedOk(all[i])
  {
    FirstIsPacked();
  }

  /** Printing a loaded blob gives the same bytes, and what was read is well formed. */
  lemma {:induction false} PrintParse(b: Bytes)
    requires Parse(b).Loaded?
    ensures IndexOk(Parse(b).index) && Print(Parse(b).index) == b
  {
    HeaderBytes(b);
    AssembledIsWritten(DecodeLE(b[..4]), DecodeLE(b[4..12]), b[12..]);
  }

  lemma {:induction false} HeaderBytes(b: Bytes)
    requires |b| >= HEADER
    ensures DecodeLE(b[4..12]) < Pow256(WORD64)
    ensures b == EncodeLE(DecodeLE(b[..4]), WORD32) + EncodeLE(DecodeLE(b[4..12]), WORD64) + b[12..]
  {
    EncodeDecodeLE(b[..4]);
    EncodeDecodeLE(b[4..12]);
    assert b == b[..4] + b[4..12] + b[12..];
  }

  lemma {:induction false} FirstIsPacked()
    ensures PackedOk(FirstOfV1())
  {
    assert Pow256(8) == 0x1_0000_0000_0000_0000;
  }

  // --------------------------------------------------------------- layout

  /** `v` stands at byte `at`, least significant byte first, in `k` bytes. */
  predicate WordAt(b: Bytes, at: nat, v: nat, k: nat) {
    at + k <= |b| && forall j {:trigger b[at + j]} :: 0 <= j < k ==> b[at + j] == v / Pow256(j) % 256
  }

  /** A checkpoint stands at byte `at`: both offsets, the bits, and the window. */
  predicate RecordAt(b: Bytes, at: nat, p: Packed) {
    && at + 32785 <= |b| && WordAt(b, at, p.inOff, 8) && WordAt(b, at + 8, p.outOff, 8)
    && b[at + 16] == p.bits && b[at + 17..at + 32785] == p.window
  }

  lemma {:induction false} SmallMultiple(d: int, y: int)
    requires -d < d * y < d
    ensures y == 0
  {
    assert y >= 1 ==> d * y >= d;
    assert y <= -1 ==> d * y <= -d;
  }

  lemma {:induction false} QuotientIs(v: nat, d: nat, q: nat, r: nat)
    requires d > 0 && v == d * q + r && r < d
    ensures v / d == q
  {
    var x := v / d;
    assert v == d * x + v % d;
    assert d * (x - q) == r - v % d;
    SmallMultiple(d, x - q);
  }

  lemma {:induction false} DivTwice(v: nat, d: nat)
    requires d > 0
    ensures v / 256 / d == v / (256 * d)
  {
    var q, r := v / 256 / d, v / 256 % d;
    assert v / 256 == d * q + r;
    assert (256 * d) * q == 256 * (d * q);
    QuotientIs(v, 256 * d, q, 256 * r + v % 256);
  }

  lemma {:induction false} DigitIs(v: nat, i: nat)
    ensures Digit(v, i) == v / Pow256(i) % 256
  {
    if i > 0 {
      DigitIs(v / 256, i - 1);
      DivTwice(v, Pow256(i - 1));
    }
  }

  lemma {:induction false} WordStands(before: Bytes, v: nat, k: nat, after: Bytes)
    ensures WordAt(before + EncodeLE(v, k) + after, |before|, v, k)
  {
    var b := before + EncodeLE(v, k) + after;
    forall j | 0 <= j < k ensures b[|before| + j] == v / Pow256(j) % 256 {
      DigitIs(v, j);
      assert b[|before| + j] == EncodeLE(v, k)[j];
    }
  }

  lemma {:induction false} RecordStands(before: Bytes, p: Packed, after: Bytes)
    requires |p.window| == WINSIZE
    ensures RecordAt(before + PrintPoint(p) + after, |before|, p)
  {
    var first, second, b := EncodeLE(p.inOff, 8), EncodeLE(p.outOff, 8), before + PrintPoint(p) + after;
    WordStands(before, p.inOff, 8, second + [p.bits] + p.window + after);
    assert b == before + first + (second + [p.bits] + p.window + after);
    WordStands(before + first, p.outOff, 8, [p.bits] + p.window + after);
    assert b == before + first + second + ([p.bits] + p.window + after);
    assert b[|before| + 17..|before| + 32785] == p.window;
  }

  lemma {:induction false} PrintConcat(a: seq<Packed>, b: seq<Packed>)
    ensures PrintPoints(a + b) == PrintPoints(a) + PrintPoints(b)
  {
    if b == [] {
      assert a + b == a;
    } else {
      var front, last := b[..|b| - 1], b[|b| - 1];
      assert (a + b)[..|a + b| - 1] == a + front;
      PrintConcat(a, front);
    }
  }

  lemma {:induction false} PrintedLength(list: seq<Packed>)
    requires forall i :: 0 <= i < |list| ==> PackedOk(list[i])
    ensures |PrintPoints(list)| == PACKED * |list|
  {
    ParsePrintPoints(list);
  }

  /** The records of a list around one of them. */
  lemma {:induction false} PrintedAround(a: seq<Packed>, p: Packed, b: seq<Packed>)
    ensures PrintPoints(a + [p] + b) == PrintPoints(a) + PrintPoint(p) + PrintPoints(b)
  {
    PrintSnoc(a, p);
    PrintConcat(a + [p], b);
  }

  /** A blob starts with the number of checkpoints in four bytes and the span size in eight. */
  lemma {:induction false} HeaderLayout(x: Index)
    requires IndexOk(x)
    ensures WordAt(Print(x), 0, |x.list|, 4) && WordAt(Print(x), 4, x.spanSize, 8)
  {
    var count, span, body := EncodeLE(|x.list|, 4), EncodeLE(x.spanSize, 8), PrintPoints(Written(x));
    WordStands([], |x.list|, 4, span + body);
    assert Print(x) == [] + count + (span + body);
    WordStands(count, x.spanSize, 8, body);
  }

  lemma {:induction false} RecordBehind(header: Bytes, before: Bytes, p: Packed, after: Bytes)
    requires |p.window| == WINSIZE
    ensures RecordAt(header + (before + PrintPoint(p) + after), |header| + |before|, p)
  {
    RecordStands(header + before, p, after);
    var printed := PrintPoint(p);
    assert header + (before + printed + after) == header + before + printed + after;
  }

  lemma {:induction false} BodyLayout(header: Bytes, list: seq<Packed>, r: nat)
    requires r < |list| && forall i :: 0 <= i < |list| ==> PackedOk(list[i])
    ensures RecordAt(header + PrintPoints(list), |header| + 32785 * r, list[r])
  {
    var a, p, b := list[..r], list[r], list[r + 1..];
    var before, after := PrintPoints(a), PrintPoints(b);
    PrintedLength(a);
    assert list == a + [p] + b;
    PrintedAround(a, p, b);
    RecordBehind(header, before, p, after);
  }

  /** Then come the checkpoints, in version 1 without the first one, in 32785 bytes each. */
  lemma {:induction false} RecordLayout(x: Index, r: nat)
    requires IndexOk(x) && (if x.version.V1? then r + 1 else r) < |x.list|
    ensures RecordAt(Print(x), 12 + 32785 * r, x.list[if x.version.V1? then r + 1 else r])
  {
    WrittenIsPacked(x);
    BodyLayout(EncodeLE(|x.list|, WORD32) + EncodeLE(x.spanSize, WORD64), Written(x), r);
  }

  /** A version 1 index starts with a checkpoint behind a header of ten bytes, with nothing before it. */
  lemma {:induction false} LoadedV1StartsBehindHeader(b: Bytes)
    requires Parse(b).Loaded? && Parse(b).index.version.V1?
    ensures var list := Parse(b).index.list;
            && list != [] && list[0].inOff == 10 && list[0].outOff == 0 && list[0].bits == 0
            && |list[0].window| == 32768 && forall i :: 0 <= i < 32768 ==> list[0].window[i] == 0
  {
    PrintParse(b);
  }

  /** The count and the length decide the version, and no blob can be read as both. */
  lemma {:induction false} VersionByLength(b: Bytes)
    requires Parse(b).Loaded?
    ensures var x := Parse(b).index;
            && (x.version.V2? <==> |b| == PACKED * |x.list| + HEADER)
            && (x.version.V1? <==> |b| == PACKED * (|x.list| - 1) + HEADER)
  {
    PrintParse(b);
    ParsePrint(Parse(b).index);
  }

  /** The three outcomes: a blob is read past its end exactly when its length is accepted although the size
      of its checkpoints wraps around, and it is loaded exactly when its length is right without wrapping. */
  lemma {:induction false} OutcomeOfBlob(b: Bytes)
    requires |b| >= HEADER
    ensures var count := DecodeLE(b[..4]);
            && (Parse(b) == Overrun <==> VersionOf(count, |b|).Some? && count < WRAP / 2 && !Countable(count))
            && (Parse(b).Loaded? <==> Countable(count) && (|b| == PACKED * count + HEADER
                                                          || (count > 0 && |b| == PACKED * (count - 1) + HEADER)))
  {
    var count := DecodeLE(b[..4]);
    if VersionOf(count, |b|).Some? { LoopStaysInsideIffCountable(count, |b|); }
    if Countable(count) { VersionOfWritten(count); }
  }

  // ------------------------------------------------------------ the loops

  /** Writes the records one after another. */
  method ZinfoToBlob(x: Index) returns (blob: Bytes)
    requires x.version.V1? ==> x.list != []
    ensures blob == Print(x)
  {
    var header := EncodeLE(|x.list|, WORD32) + EncodeLE(x.spanSize, WORD64);
    var first := if x.version.V1? then 1 else 0;
    var records := WriteRecords(x.list, first);
    assert x.list[first..] == Written(x);
    blob := header + records;
  }

  method WriteRecords(list: seq<Packed>, first: nat) returns (records: Bytes)
    requires first <= |list|
    ensures records == PrintPoints(list[first..])
  {
    records := [];
    for i := first to |list|
      invariant records == PrintPoints(list[first..i])
    {
      PrintNext(list, first, i);
      records := records + PrintPoint(list[i]);
    }
    assert list[first..|list|] == list[first..];
  }

  /** What writing an index comes to; `Overflow` is a loop that writes past the end of its buffer. */
  datatype BytesResult = Overflow | SizeError | Blob(blob: Bytes)

  /** Writes an index into a buffer of the computed size; a size of zero and a size that is negative as a
      signed word are reported as errors. The index is written as it is packed exactly when that takes less
      than 2^31 bytes. */
  method ZinfoBytes(x: Index) returns (r: BytesResult)
    requires IndexShaped(x)
    ensures r == if |Print(x)| < WRAP / 2 then Blob(Print(x))
                 else if |Print(x)| < WRAP || |Print(x)| % WRAP == 0 then SizeError
                 else Overflow
  {
    PrintedSize(x);
    var size := SizeOf(RecordCount(x.version, |x.list|));
    if size == 0 {
      return SizeError;
    }
    var blob := ZinfoToBlob(x);
    if size < |blob| {
      return Overflow;
    }
    return if size >= WRAP / 2 then SizeError else Blob(blob);
  }

  /** Such a size: 1174058164 checkpoints take a multiple of 2^32 bytes. */
  lemma {:induction false} SizeWrapsToZero()
    ensures SizeOf(1174058164) == 0 && 1174058164 < WRAP / 2
  {
  }

  /** An index of any number of checkpoints that a count word holds. */
  predicate IndexShaped(x: Index) {
    && |x.list| < WRAP / 2 && x.spanSize < Pow256(WORD64)
    && (forall i :: 0 <= i < |x.list| ==> PackedOk(x.list[i]))
    && (x.version.V1? ==> x.list != [])
  }

  lemma {:induction false} PrintedSize(x: Index)
    requires IndexShaped(x)
    ensures |Print(x)| == PACKED * RecordCount(x.version, |x.list|) + HEADER
    ensures SizeOf(RecordCount(x.version, |x.list|)) == |Print(x)| <==> |Print(x)| < WRAP
    ensures SizeOf(RecordCount(x.version, |x.list|)) == |Print(x)| % WRAP
  {
    assert |x.list| < Pow256(WORD32) by { assert Pow256(4) == WRAP; }
    WrittenSize(x);
    HeaderOf(|x.list|, x.spanSize, PrintPoints(Written(x)));
    SizeWrapsIff(RecordCount(x.version, |x.list|));
  }

  lemma {:induction false} WrittenSize(x: Index)
    requires IndexShaped(x)
    ensures |PrintPoints(Written(x))| == PACKED * RecordCount(x.version, |x.list|)
  {
    ParsePrintPoints(Written(x));
  }

  lemma {:induction false} SizeWrapsIff(count: nat)
    ensures SizeOf(count) <= PACKED * count + HEADER
    ensures SizeOf(count) == PACKED * count + HEADER <==> Countable(count)
  {
  }

  /** Reads the records one after another from a cursor, unless they go past the end. */
  method ReadRecords(b: Bytes, n: nat) returns (list: Option<seq<Packed>>)
    requires |b| >= HEADER
    ensures list.Some? <==> HEADER + PACKED * n <= |b|
    ensures list.Some? ==> |b[12..][..PACKED * n]| == PACKED * n && list.value == ParsePoints(b[12..][..PACKED * n], n)
  {
    var points := [];
    var cur := HEADER;
    for i := 0 to n
      invariant cur == HEADER + PACKED * i <= |b| && |b[HEADER..cur]| == PACKED * i
      invariant points == ParsePoints(b[HEADER..cur], i)
    {
      if cur + PACKED > |b| {
        PackedMonotone(i + 1, n);
        return None;
      }
      ParseOneMore(b, cur, i);
      points := points + [ParsePoint(b[cur..cur + PACKED])];
      cur := cur + PACKED;
    }
    assert b[HEADER..cur] == b[12..][..PACKED * n];
    return Some(points);
  }

  lemma {:induction false} PackedMonotone(i: nat, n: nat)
    requires i <= n
    ensures PACKED * i <= PACKED * n
  {
  }

  method BlobToZinfo(b: Bytes) returns (x: Outcome)
    ensures x == Parse(b)
  {
    if |b| < HEADER {
      return Refused;
    }
    var size, spanSize := DecodeLE(b[..4]), DecodeLE(b[4..12]);
    var version := VersionOf(size, |b|);
    if version.None? || size >= WRAP / 2 {
      return Refused;
    }
    LoopStaysInsideIffCountable(size, |b|);
    var list := ReadRecords(b, RecordCount(version.value, size));
    if list.None? {
      return Overrun;
    }
    return Loaded(Index(version.value, spanSize, if version.value.V1? then [FirstOfV1()] + list.value else list.value));
  }

  lemma {:induction false} ParseOneMore(b: Bytes, cur: nat, n: nat)
    requires cur == HEADER + PACKED * n && cur + PACKED <= |b|
    ensures |b[HEADER..cur]| == PACKED * n && |b[HEADER..cur + PACKED]| == PACKED * (n + 1)
    ensures ParsePoints(b[HEADER..cur + PACKED], n + 1) ==
              ParsePoints(b[HEADER..cur], n) + [ParsePoint(b[cur..cur + PACKED])]
  {
    var next := b[HEADER..cur + PACKED];
    assert next[..PACKED * n] == b[HEADER..cur] && next[PACKED * n..] == b[cur..cur + PACKED];
  }
}
