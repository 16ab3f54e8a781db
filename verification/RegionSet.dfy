/**
 The set of fetched byte ranges of a blob, kept as a sorted list of regions that neither touch nor
 overlap. Ends are inclusive, as in HTTP range requests.
 */
module RegionSet {

  datatype Region = Region(b: int, e: int) {
    predicate Has(k: int) { b <= k <= e }

    function Size(): int { e - b + 1 }
  }

  /** Adding a region, looking at the list from its end. */
  function Insert(rs: seq<Region>, r: Region): seq<Region> {
    if rs == [] then [r]
    else
      var front, l := rs[..|rs| - 1], rs[|rs| - 1];
      if l.b <= r.b && r.e <= l.e then rs
      else if l.b <= r.b <= l.e + 1 && l.e <= r.e then Insert(front, Region(l.b, r.e))
      else if r.b <= l.b <= r.e + 1 && r.e <= l.e then Insert(front, Region(r.b, l.e))
      else if r.b <= l.b && l.e <= r.e then Insert(front, r)
      else if l.e < r.b then rs + [r]
      else Insert(front, r) + [l]
  }

  class Regions {
    var rs: seq<Region>

    constructor ()
      ensures rs == []
    {
      rs := [];
    }

    /** Merges a region into the list, removing the regions it absorbs. */
    method Add(reg: Region)
      modifies this
      ensures rs == Insert(old(rs), reg)
    {
      var r := reg;
      ghost var right: seq<Region> := [];
      var i := |rs| - 1;
      assert rs[..i + 1] == rs;
      while i >= 0
        invariant -1 <= i < |rs| && rs == rs[..i + 1] + right
        invariant Insert(old(rs), reg) == Insert(rs[..i + 1], r) + right
      {
        var l := rs[i];
        ghost var front := rs[..i];
        assert rs[..i + 1][..i] == front && rs[..i + 1][i] == l;
        if l.b <= r.b && r.e <= l.e {
          return;
        }
        if l.b <= r.b <= l.e + 1 && l.e <= r.e {
          r := Region(l.b, r.e);
          rs := rs[..i] + rs[i + 1..];
        } else if r.b <= l.b <= r.e + 1 && r.e <= l.e {
          r := Region(r.b, l.e);
          rs := rs[..i] + rs[i + 1..];
        } else if r.b <= l.b && l.e <= r.e {
          rs := rs[..i] + rs[i + 1..];
        } else if l.e < r.b {
          rs := rs[..i + 1] + [r] + rs[i + 1..];
          return;
        } else {
          right := [l] + right;
        }
        assert rs[..i] == front && rs == front + right;
        i := i - 1;
      }
      rs := [r] + rs;
    }

    method TotalSize() returns (sz: int)
      ensures sz == SizeOf(rs)
    {
      sz := 0;
      for i := 0 to |rs|
        invariant sz == SizeOf(rs[..i])
      {
        assert rs[..i + 1][..i] == rs[..i];
        sz := sz + rs[i].Size();
      }
      assert rs[..|rs|] == rs;
    }
  }

  function SizeOf(rs: seq<Region>): int {
    if rs == [] then 0 else SizeOf(rs[..|rs| - 1]) + rs[|rs| - 1].Size()
  }

  // ------------------------------------------------------- normal form

  predicate Covers(rs: seq<Region>, k: int) {
    exists i :: 0 <= i < |rs| && rs[i].Has(k)
  }

  /** Sorted, and at least one byte apart. */
  predicate Normal(rs: seq<Region>) {
    && (forall i :: 0 <= i < |rs| ==> rs[i].b <= rs[i].e)
    && (forall i, j :: 0 <= i < j < |rs| ==> rs[i].e + 1 < rs[j].b)
  }

  lemma {:induction false} CoversSnoc(rs: seq<Region>, l: Region, k: int)
    ensures Covers(rs + [l], k) <==> Covers(rs, k) || l.Has(k)
  {
    var all := rs + [l];
    assert all[|rs|] == l;
    if Covers(rs, k) {
      var i :| 0 <= i < |rs| && rs[i].Has(k);
      assert all[i].Has(k);
    }
  }

  lemma {:induction false} InsertCovers(rs: seq<Region>, r: Region, k: int)
    requires Normal(rs) && r.b <= r.e
    ensures Covers(Insert(rs, r), k) <==> Covers(rs, k) || r.Has(k)
  {
    if rs == [] {
      assert Insert(rs, r)[0] == r;
    } else {
      var front, l := rs[..|rs| - 1], rs[|rs| - 1];
      assert rs == front + [l];
      CoversSnoc(front, l, k);
      if l.b <= r.b && r.e <= l.e {
      } else if l.b <= r.b <= l.e + 1 && l.e <= r.e {
        InsertCovers(front, Region(l.b, r.e), k);
      } else if r.b <= l.b <= r.e + 1 && r.e <= l.e {
        InsertCovers(front, Region(r.b, l.e), k);
      } else if r.b <= l.b && l.e <= r.e {
        InsertCovers(front, r, k);
      } else if l.e < r.b {
        CoversSnoc(rs, r, k);
      } else {
        InsertCovers(front, r, k);
        CoversSnoc(Insert(front, r), l, k);
      }
    }
  }

  /** Inserting stays to the left of a bound. */
  lemma {:induction false} InsertStaysBelow(rs: seq<Region>, r: Region, top: int)
    requires r.e <= top && forall i :: 0 <= i < |rs| ==> rs[i].e <= top
    ensures forall i :: 0 <= i < |Insert(rs, r)| ==> Insert(rs, r)[i].e <= top
  {
    if rs != [] {
      var front, l := rs[..|rs| - 1], rs[|rs| - 1];
      if l.b <= r.b && r.e <= l.e {
      } else if l.b <= r.b <= l.e + 1 && l.e <= r.e {
        InsertStaysBelow(front, Region(l.b, r.e), top);
      } else if r.b <= l.b <= r.e + 1 && r.e <= l.e {
        InsertStaysBelow(front, Region(r.b, l.e), top);
      } else if r.b <= l.b && l.e <= r.e {
        InsertStaysBelow(front, r, top);
      } else if l.e >= r.b {
        InsertStaysBelow(front, r, top);
      }
    }
  }

  lemma {:induction false} InsertIsNormal(rs: seq<Region>, r: Region)
    requires Normal(rs) && r.b <= r.e
    ensures Normal(Insert(rs, r))
  {
    if rs != [] {
      var front, l := rs[..|rs| - 1], rs[|rs| - 1];
      if l.b <= r.b && r.e <= l.e {
      } else if l.b <= r.b <= l.e + 1 && l.e <= r.e {
        InsertIsNormal(front, Region(l.b, r.e));
      } else if r.b <= l.b <= r.e + 1 && r.e <= l.e {
        InsertIsNormal(front, Region(r.b, l.e));
      } else if r.b <= l.b && l.e <= r.e {
        InsertIsNormal(front, r);
      } else if l.e >= r.b {
        InsertIsNormal(front, r);
        InsertStaysBelow(front, r, l.b - 2);
      }
    }
  }

  // ------------------------------------------------------ total size

  function Interval(b: int, e: int): set<int> {
    set k | b <= k <= e && Region(b, e).Has(k)
  }

  lemma {:induction false} IntervalSize(b: int, e: int)
    requires b <= e + 1
    ensures |Interval(b, e)| == e - b + 1
    decreases e - b + 1
  {
    if b == e + 1 {
      assert Interval(b, e) == {};
    } else {
      IntervalSize(b, e - 1);
      assert Interval(b, e) == Interval(b, e - 1) + {e};
    }
  }

  function Union(rs: seq<Region>): set<int> {
    if rs == [] then {} else Union(rs[..|rs| - 1]) + Interval(rs[|rs| - 1].b, rs[|rs| - 1].e)
  }

  lemma {:induction false} UnionIsCovered(rs: seq<Region>, k: int)
    ensures k in Union(rs) <==> Covers(rs, k)
  {
    if rs != [] {
      var front, l := rs[..|rs| - 1], rs[|rs| - 1];
      UnionIsCovered(front, k);
      assert rs == front + [l];
      CoversSnoc(front, l, k);
    }
  }

  /** The total size is the number of bytes covered. */
  lemma {:induction false} SizeIsCardinality(rs: seq<Region>)
    requires Normal(rs)
    ensures SizeOf(rs) == |Union(rs)|
  {
    if rs != [] {
      var front, l := rs[..|rs| - 1], rs[|rs| - 1];
      SizeIsCardinality(front);
      IntervalSize(l.b, l.e);
      forall k | k in Union(front) ensures k !in Interval(l.b, l.e) {
        UnionIsCovered(front, k);
      }
      assert Union(front) !! Interval(l.b, l.e);
    }
  }

  // ----------------------------------------------------- whole histories

  function AddAll(added: seq<Region>): seq<Region> {
    if added == [] then [] else Insert(AddAll(added[..|added| - 1]), added[|added| - 1])
  }

  predicate Proper(added: seq<Region>) {
    forall i :: 0 <= i < |added| ==> added[i].b <= added[i].e
  }

  /** Whatever was added, the list is sorted with gaps and covers exactly the bytes of the regions added. */
  lemma {:induction false} DenotesUnionOfAdded(added: seq<Region>)
    requires Proper(added)
    ensures Normal(AddAll(added))
    ensures forall k :: Covers(AddAll(added), k) <==> Covers(added, k)
  {
    if added != [] {
      var front, r := added[..|added| - 1], added[|added| - 1];
      DenotesUnionOfAdded(front);
      InsertIsNormal(AddAll(front), r);
      assert added == front + [r];
      forall k ensures Covers(AddAll(added), k) <==> Covers(added, k) {
        InsertCovers(AddAll(front), r, k);
        CoversSnoc(front, r, k);
      }
    }
  }

  /** The total size is the number of different bytes of the regions added. */
  lemma {:induction false} TotalSizeIsUnion(added: seq<Region>)
    requires Proper(added)
    ensures SizeOf(AddAll(added)) == |Union(added)|
  {
    DenotesUnionOfAdded(added);
    SizeIsCardinality(AddAll(added));
    forall k ensures k in Union(AddAll(added)) <==> k in Union(added) {
      UnionIsCovered(AddAll(added), k);
      UnionIsCovered(added, k);
    }
    assert Union(AddAll(added)) == Union(added);
  }

  /** With reads inside the blob, the fetched size reaches the blob's size exactly when every byte was
      fetched. */
  lemma {:induction false} FullyFetchedIffSizesAgree(size: nat, added: seq<Region>)
    requires Proper(added) && forall i :: 0 <= i < |added| ==> 0 <= added[i].b && added[i].e < size
    ensures SizeOf(AddAll(added)) == size <==> forall k :: 0 <= k < size ==> Covers(added, k)
  {
    TotalSizeIsUnion(added);
    IntervalSize(0, size - 1);
    forall k ensures k in Union(added) <==> Covers(added, k) { UnionIsCovered(added, k); }
    assert Union(added) <= Interval(0, size - 1);
    if |Union(added)| == size {
      SubsetOfSameSize(Union(added), Interval(0, size - 1));
    }
    assert (forall k :: 0 <= k < size ==> Covers(added, k)) ==> Union(added) == Interval(0, size - 1);
  }

  lemma {:induction false} SubsetOfSameSize(a: set<int>, b: set<int>)
    requires a <= b && |a| == |b|
    ensures a == b
  {
    assert |b - a| == |b| - |a|;
    assert b == a + (b - a);
  }
}
