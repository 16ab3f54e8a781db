/**
 A writer that copies the part of a stream that lies over a destination buffer, however the stream is
 chopped into writes.
 */
module BytesWriter {
  import opened Base

  function Positive(n: int): nat {
    if n < 0 then 0 else n
  }

  /** The destination after bytes `current..current + |p|` of the stream were written. */
  function Written(dest: Bytes, destOff: int, current: int, p: Bytes): Bytes {
    seq(|dest|, k requires 0 <= k < |dest| =>
      if current <= destOff + k < current + |p| then p[destOff + k - current] else dest[k])
  }

  class Writer {
    const dest: array<byte>
    const destOff: int
    var current: int

    constructor (buffer: array<byte>, off: int)
      ensures dest == buffer && destOff == off && current == 0
    {
      dest, destOff, current := buffer, off, 0;
    }

    /** Every byte of the stream that lies over the buffer is copied to its place, nothing else changes. */
    method Write(p: Bytes) returns (n: nat)
      modifies this, dest
      ensures n == |p| && current == old(current) + |p|
      ensures dest[..] == Written(old(dest[..]), destOff, old(current), p)
    {
      var destBase := Positive(current - destOff);
      var pBegin := Positive(destOff - current);
      var pEnd := Positive(destOff + dest.Length - current);
      current := current + |p|;
      n := |p|;
      if destBase > dest.Length {
        assert dest[..] == Written(old(dest[..]), destOff, old(current), p);
        return;
      }
      if pBegin >= |p| {
        assert dest[..] == Written(old(dest[..]), destOff, old(current), p);
        return;
      }
      if pEnd > |p| {
        pEnd := |p|;
      }
      CopyInto(dest, destBase, p[pBegin..pEnd]);
      assert dest[..] == Written(old(dest[..]), destOff, old(current), p);
    }
  }

  /** Copies as much of `src` as there is room for. */
  method CopyInto(dest: array<byte>, base: nat, src: Bytes)
    requires base <= dest.Length
    modifies dest
    ensures forall k :: 0 <= k < dest.Length ==>
      dest[k] == if base <= k < base + |src| then src[k - base] else old(dest[k])
  {
    var n := if |src| < dest.Length - base then |src| else dest.Length - base;
    for i := 0 to n
      invariant forall k :: 0 <= k < dest.Length ==>
        dest[k] == if base <= k < base + i then src[k - base] else old(dest[k])
    {
      dest[base + i] := src[i];
    }
  }

  // ------------------------------------------------------ whole streams

  function WriteAll(dest: Bytes, destOff: int, current: int, chunks: seq<Bytes>): Bytes {
    if chunks == [] then dest
    else
      var before := chunks[..|chunks| - 1];
      Written(WriteAll(dest, destOff, current, before), destOff, current + |Flatten(before)|, chunks[|chunks| - 1])
  }

  lemma {:induction false} WrittenTwice(dest: Bytes, destOff: int, current: int, p: Bytes, q: Bytes)
    ensures Written(Written(dest, destOff, current, p), destOff, current + |p|, q) ==
        Written(dest, destOff, current, p + q)
  {
  }

  /** The result depends on the stream only, not on where it was cut. */
  lemma {:induction false} ChunkingDoesNotMatter(dest: Bytes, destOff: int, current: int, chunks: seq<Bytes>)
    ensures WriteAll(dest, destOff, current, chunks) == Written(dest, destOff, current, Flatten(chunks))
  {
    if chunks == [] {
      assert Written(dest, destOff, current, []) == dest;
    } else {
      var before := chunks[..|chunks| - 1];
      ChunkingDoesNotMatter(dest, destOff, current, before);
      WrittenTwice(dest, destOff, current, Flatten(before), chunks[|chunks| - 1]);
    }
  }

  /** A stream that reaches to the end of the buffer fills it with its own bytes. */
  lemma {:induction false} WholeBufferIsStreamSlice(dest: Bytes, destOff: nat, chunks: seq<Bytes>)
    requires destOff + |dest| <= |Flatten(chunks)|
    ensures WriteAll(dest, destOff, 0, chunks) == Flatten(chunks)[destOff..destOff + |dest|]
  {
    ChunkingDoesNotMatter(dest, destOff, 0, chunks);
  }
}
